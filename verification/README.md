# AGIDB: a verified model of the storage and authentication core

AGIDB is a single-node, append-only, hash-chained key/value store. This project models four parts of its Go
engine and proves that they do together what they are for:

* the Merkle tree over the state, its inclusion proofs and their verification (`Merkle`, `MerkleBinding`,
  `PaddedTrees`, `ProofLengths`, `LongProofs`);
* the chain: filtering no-op writes, building a block with nine roots and a chained hash, replaying blocks with
  all checks, the version index behind historical reads (`Writes`, `Chain`, `Headers`,
  `Engines`, `Bundles`);
* the segmented, framed log with its write-ahead log and recovery (`Frames`, `Log`, `Store`, `Opening`), and
  crash safety over whole runs (`CrashSafety`, `Runs`, `Edges`);
* compaction (`Compaction`).

`dafny verify dfyconfig.toml` checks everything.

## How the model is laid out

Code that updates fields or loops in place is imperative here too: `Store.Files` and `Engines.Engine` are classes
with the fields of their Go structs, and the loops of the tree, the filter, the scan and the batches are loops.
Each such method is proved against a function on values, and the main results are lemmas about those functions.
Every durable step of `Files` (write the temporary write-ahead log, rename it, create a segment, append, truncate,
remove the write-ahead log) is recorded in its ghost field `effects`; the contracts of `Open` and `Commit` state
that list, and crash safety is proved over all its prefixes and all ways to cut a write short.

The imported libraries are the function fields of `Model.Lib`. `Lib.Sound` holds the only facts used about them:
zlib gives back what it packed and packs nothing to nothing; gob leaves empty byte slices out, so that it encodes a
block with them as one with nil in their place and gives that one back, and never encodes a block to nothing;
`json.Marshal` leaves an empty payload out, nil or not (`engine/internal/model/model.go:16`). Beyond that they, and
SHA-256, CRC32C, `json.Valid` and `strings.ToLower`, are arbitrary functions. A result that depends on SHA-256 assumes
`CollisionFree(H, S)`: no two strings of the finite set `S` that was actually hashed have one digest. Results that
depend on the JSON text of blocks assume `JsonApart` for the blocks at hand: equal texts mean equal blocks, but for
empty payloads. Go strings and byte slices are byte sequences; a byte slice that may be nil is a `Value`. Random
transaction ids and clock readings are parameters. The segment size is a parameter not above the record limit; in the
program both are 256 MiB.

What a definition shared by methods and specifications says is stated once more without its name, in bytes, literal
prefixes and fields: the order of keys (`AtMostExactly`), hexadecimal text and words, the tree hashed from the top
(`TopIsWhole`), accepted proofs (`AcceptsExactly`), the record format (`FrameIs`, `ReadsExactly`), what operations
leave (`LastWriteWins`), what a commit decides and builds (`DecidesExactly`, `BuiltIs`), what the checks come to
(`LoadsExactly`, `ChecksAre`), and the operations of a bundle (`BundleOpsAre`).

Proofs use `hide` to keep function bodies that a step does not need away from the solver.

## Where the code does less than its documentation says

* **A record torn exactly behind its 16-byte header.** The scan takes it for the end of the file and leaves it; the
  next open replays the write-ahead log behind it and looks right, but the open after that cuts the segment there.
  `RunsAreCrashSafe` covers every other torn length; `BareHeaderCrash` says exactly what happens at this one,
  `StrayHeaderLoses` what is lost with further appends to the segment, and `StrayHeaderBreaks` that the directory
  does not open any more once blocks went on in further segments.
* **A block longer than a segment** is refused after its write-ahead log was renamed into place. The next accepted
  commit of the same process replaces that file; but a directory that is closed or crashes with it never opens again
  (`StuckForever`, `RunsAreCrashSafe`; for one disk `OpensExactlyWhenItFits`).
* **Empty values.** The value of an operation that is empty but not nil is hashed as `""` and comes back from disk as
  `null`. A chain can be opened again exactly when it holds no such value (`ReopensExactlyWhenKept`), and a batch
  builds a block with one exactly when an operation of it that has an effect writes one (`BuiltKeepsExactly`,
  `EmptyValueIsCommitted`). Empty payloads do no harm: no hash covers them.
* **State roots** bind states with NUL-free keys; trees of different heights need a bound on leaf sizes
  (`StateRootsAgree`, `HeightConditionIsNeeded`, `NulConditionIsNeeded`). Whatever the keys, they bind the padded list
  of leaves between trees of one height (`PaddedLeavesAgree`).
* **Proofs of the wrong length.** `VerifyProof` checks neither the length of the path nor the width of its siblings.
  A claim that the state does not bear out is accepted exactly when its leaf is a node string of the tree, through a
  shorter path, or when a leaf of the state begins or ends with its digest, directly or through further strings
  embedded in one another, through a longer path (`FalseClaimsExactly`). The second needs no luck: whoever may write
  one value can have any claim accepted (`OneValueProvesAnything`). Paths of the tree's height are sound
  (`ProofsAreSound`), and so are paths of any length when the siblings have 32 bytes and neither the claimed leaf nor
  a leaf of the state has 64 (`ProofsAreSoundBySize`); none of the three can be dropped (`SizeConditionsAreNeeded`).
* **The transaction root** is protected by the record hash alone (`TxRootIsNotRechecked`).

## Model

| member | source | states |
|---|---|---|
| ByteStrings.AtMostExactly | engine/internal/merkle/merkle.go:32 | The key order is that of Go strings: a prefix comes first, otherwise the first differing byte decides. |
| ByteStrings.HexDigitsAre | engine/internal/merkle/merkle.go:10 | Each byte becomes two lower-case hexadecimal digits, the high one first. |
| ByteStrings.HexDecodesExactly | engine/internal/merkle/merkle.go:92-95 | A text decodes to some bytes exactly when it is their hexadecimal text, in either case of letters. |
| ByteStrings.WordsAreFourBytes | engine/internal/storage/files.go:52-53 | Every four bytes are one 32-bit word and its encoding. |
| ByteStrings.WordsKeepOrder | engine/internal/storage/files.go:52-53 | Words are ordered as their four bytes are, so the high byte comes first. |
| Merkle.NextLevel | engine/internal/merkle/merkle.go:16-24 | The loop hashes neighbours into the next level and pairs an odd last node with itself. |
| Merkle.Root | engine/internal/merkle/merkle.go:11-27 | The level loop computes the top of the tree over the hashed leaves, and the hash of nothing for no leaves. |
| Merkle.SortedKeys | engine/internal/merkle/merkle.go:30-32 | Whatever order the map is ranged over in, exactly the keys below the prefix come out, strictly ascending as Go strings. |
| Merkle.KeysAscend | engine/internal/merkle/merkle.go:32 | Of two keys in a state's order the earlier is a proper prefix of the later or smaller at the first differing byte. |
| Merkle.LeavesAre | engine/internal/merkle/merkle.go:33-34 | The leaves of a state are each key in order, a NUL, and its value. |
| Merkle.PrefixRoot | engine/internal/merkle/merkle.go:29-36 | The prefix root is the state root of the part of the state below the prefix. |
| Merkle.StateRoot | engine/internal/merkle/merkle.go:28 | The root with the empty prefix is the root of the whole state. |
| Merkle.SiblingPath | engine/internal/merkle/merkle.go:66-82 | The loop that overwrites position and level emits the sibling of each ancestor, with its side. |
| Merkle.StateProof | engine/internal/merkle/merkle.go:55-84 | The proof method yields the specified proof, or an absent one with the insertion index. |
| Merkle.VerifyProof | engine/internal/merkle/merkle.go:86-101 | The folding loop accepts exactly the proofs whose leaf hash, hexadecimal siblings and root fit together. |
| Merkle.PathFolds | engine/internal/merkle/merkle.go:68-82 | Folding the path of any node gives the top; the path has the tree's height and its directions spell the node's index. |
| Merkle.ProofsAreComplete | engine/internal/merkle/merkle.go:55-101 | For every state and key the generated proof is accepted exactly when the key is present, carries its value, and its path determines its index. |
| Merkle.SearchSplits | engine/internal/merkle/merkle.go:59 | The search splits the keys into those below the wanted one and the others. |
| Merkle.ProofFields | engine/internal/merkle/merkle.go:55-84 | The index counts the keys below the wanted one and the total all of them; an absent key gets neither value nor leaf hash nor path. |
| Merkle.AcceptsExactly | engine/internal/merkle/merkle.go:86-101 | A proof is accepted exactly when it claims presence, names the hash of its leaf, and some digests lead from that hash along its path to its root. |
| MerkleBinding.PairsBind | engine/internal/merkle/merkle.go:17-20 | Between levels of distinct nodes a duplicated last node cannot be confused with two nodes. |
| MerkleBinding.LevelsBind | engine/internal/merkle/merkle.go:15-26 | Two trees of one height with one top have equal bottom levels. |
| MerkleBinding.TopsAgree | engine/internal/merkle/merkle.go:15-26 | Trees of different heights share a top exactly when the lower one's leaves are the taller one's level at that height. |
| MerkleBinding.LeafSplits | engine/internal/merkle/merkle.go:34 | With NUL-free keys a leaf determines key and value. |
| MerkleBinding.StateRootsAgree | engine/internal/merkle/merkle.go:11-36 | Two states share a root exactly when they are equal or the leaves of the lower tree are byte for byte inner nodes of the taller one. |
| MerkleBinding.StateRootBinds | engine/internal/merkle/merkle.go:11-36 | Equal state roots mean equal states, for trees of one height or when the lower tree has no 64-byte leaf. |
| MerkleBinding.HeightConditionIsNeeded | engine/internal/merkle/merkle.go:86-101 | Under any hash: when the topmost node string of a tree reads as key, NUL and value, the state with only that key shares the root, and its proof with an empty path is accepted for the taller tree. |
| MerkleBinding.SharedRootExample | engine/internal/merkle/merkle.go:11-101 | Two concrete states of different heights share a root without any collision, and a proof of the wrong length is accepted for a value not held. |
| MerkleBinding.NulConditionIsNeeded | engine/internal/merkle/merkle.go:34 | Under any hash two different one-key states share a root when a key may hold a NUL. |
| PaddedTrees.TopIsWhole | engine/internal/merkle/merkle.go:15-26 | The level loop with its odd last nodes computes the top-down hash of the whole binary tree over the padded leaves. |
| PaddedTrees.TopsAgreePadded | engine/internal/merkle/merkle.go:15-26 | Two trees of one height, repeated nodes or not, share a top exactly when their bottom levels are equal once padded by repeating the last node at every odd level. |
| PaddedTrees.PaddedLeavesAgree | engine/internal/merkle/merkle.go:11-36 | Whatever their keys, two states with trees of one height share a root exactly when their padded leaves are equal. |
| MerkleBinding.FoldIsSound | engine/internal/merkle/merkle.go:92-100 | A path of the tree's height that folds to the top starts at a node of the bottom level, whatever the widths of its siblings. |
| MerkleBinding.ProofsAreSound | engine/internal/merkle/merkle.go:86-101 | An accepted proof for a state's root with a path of the tree's height tells the key's value in that state. |
| ProofLengths.ShortProofNamesNode | engine/internal/merkle/merkle.go:86-101 | What an accepted proof shorter than the tree claims is a 64-byte node string of the tree. |
| ProofLengths.ShortProofsExactly | engine/internal/merkle/merkle.go:86-101 | An accepted proof shorter than the tree for a key and value exists exactly when they are a node string of it. |
| ProofLengths.ShortProofsExist | engine/internal/merkle/merkle.go:86-101 | One with a NUL-free key exists exactly when some node string of the tree has a NUL. |
| ProofLengths.FalseShortProofsExist | engine/internal/merkle/merkle.go:86-101 | One that claims what the state does not hold exists exactly when some node string has a NUL and is no leaf of the state. |
| LongProofs.LongProofsExactly | engine/internal/merkle/merkle.go:86-101 | An accepted proof with n steps more than the tree is high exists for a key and value exactly when n strings, each embedding the digest of the one before, lead from their leaf to a leaf of the state. |
| LongProofs.OneStepExactly | engine/internal/merkle/merkle.go:86-101 | One with a single step more exists exactly when some leaf of the state begins or ends with the digest of the claimed leaf. |
| LongProofs.OneValueProvesAnything | engine/internal/merkle/merkle.go:92-99 | A state that holds a value ending in the digest of a claim's leaf has an accepted proof of that claim; its siblings have digest width exactly when that value's leaf has 64 bytes. |
| LongProofs.AcceptedExactly | engine/internal/merkle/merkle.go:86-101 | Over paths of any length, accepted proofs claim exactly node strings of the tree, leaves of the state, and what embeddings lead to one. |
| LongProofs.FalseClaimsExactly | engine/internal/merkle/merkle.go:86-101 | A claim the state does not bear out has an accepted proof exactly when it is a node string or at least one embedding leads from it to a leaf. |
| LongProofs.ProofsAreSoundBySize | engine/internal/merkle/merkle.go:86-101 | An accepted proof of any length with 32-byte siblings tells the truth when neither its own leaf nor a leaf of the state has 64 bytes. |
| LongProofs.SizeConditionsAreNeeded | engine/internal/merkle/merkle.go:86-101 | Three accepted false proofs without a collision, each of which violates exactly one of these three conditions. |
| Model.NormKeepsExactlyNormalised | engine/internal/storage/files.go:49-50 | The disk encoding keeps a block exactly when nothing in it is empty without being nil. |
| Model.NormKeepsBytes | engine/internal/storage/files.go:49-50 | The disk encoding keeps header, transactions and operations, and the bytes of every slice. |
| Model.NormIsShownExactly | engine/internal/model/model.go:5-18 | Disk encoding and JSON text forget the same about a block exactly when no operation value in it is empty without being nil. |
| Writes.LastWriteWins | engine/internal/engine/engine.go:70-75 | After some operations a key holds exactly the bytes the last operation on it wrote, or nothing when that deleted it. |
| Writes.OthersStay | engine/internal/engine/engine.go:70-75 | A key without an operation stays as it was. |
| Writes.KeptSnoc | engine/internal/engine/engine.go:112-121 | An operation is dropped exactly when it deletes an absent key or writes the bytes the key already holds. |
| Writes.FilterIsSound | engine/internal/engine/engine.go:105-127 | The kept operations are a subsequence that leads to the same state, each changing it where it is applied. |
| Writes.FilterIsIdempotent | engine/internal/engine/engine.go:105-127 | Filtering again drops nothing. |
| Writes.RefusedWhenInvalid | engine/internal/engine/engine.go:107-111 | A batch is refused exactly when some transaction has no id or an empty key. |
| Writes.FirstErrorCounts | engine/internal/engine/engine.go:106-111 | The error is that of the first invalid transaction, a missing id before an empty key. |
| Writes.FilterFlattens | engine/internal/engine/engine.go:106-126 | Transaction boundaries affect neither what is kept nor the final state, and no kept transaction is empty. |
| Writes.FilterSnoc | engine/internal/engine/engine.go:123-125 | A transaction is kept in its place with everything but its dropped operations, unless none is left. |
| Writes.BatchFilter | engine/internal/engine/engine.go:105-127 | Over a batch the kept transactions lead to the state of all; the batch counts as unchanged exactly when no operation in sequence moves the state. |
| Chain.BuiltLoads | engine/internal/engine/engine.go:127-134 | Every block Commit builds passes every check of applyLoaded and leads to the state Commit computed. |
| Chain.BuiltKeepsExactly | engine/internal/engine/engine.go:105-134 | A batch builds a block that the disk keeps exactly when no operation with an effect where it comes writes an empty slice that is not nil; a batch with no such operation always does. |
| Chain.RunsReplay | engine/internal/engine/engine.go:101-148 | After any run of commits, replaying the blocks from nothing raises no error and reproduces state, versions and counters. |
| Chain.LoadedLedger | engine/internal/engine/engine.go:63-93 | What loading leaves is the replayed state and version index, and counters that count the transactions and operations of the blocks. |
| Chain.LoadedGrows | engine/internal/engine/engine.go:70-93 | Loading one more block applies and records its operations under its height and counts its transactions and operations. |
| Chain.ReplayIsFlat | engine/internal/engine/engine.go:70-75 | Replaying blocks applies all their operations in order. |
| Chain.EachLoads | engine/internal/engine/engine.go:63-93 | Every block of a loaded list passed its checks on the blocks before it and has its position as height. |
| Chain.ReadsAreReplays | engine/internal/engine/engine.go:150-161 | The version index answers every key and height with the state after that many blocks, for several writes and deletes in one block too. |
| Chain.TipBindsChain | engine/internal/engine/engine.go:64-69 | Two lists that load end in one record hash exactly when they are equal in length and content, but for empty payloads. |
| Chain.NextHashIsNew | engine/internal/engine/engine.go:54 | A block that loads after another has a different record hash, so Open can tell them apart. |
| Chain.TxRootIsNotRechecked | engine/internal/engine/engine.go:63-93 | With any other transaction root a block loads as well once it is hashed again. |
| Chain.EmptyPayloadsAreNotHashed | engine/internal/model/model.go:16 | Turning empty payloads into nil changes neither the record hash nor the transaction leaves nor the operations of a block. |
| Chain.ShownAllLoads | engine/internal/engine/engine.go:63-93 | Turning empty payloads of a list into nil changes nothing about whether and to what it loads. |
| Chain.ReloadsExactlyWhenKept | engine/internal/engine/engine.go:69 | A chain survives the disk encoding exactly when no operation value is empty without being nil, and then loads to the same state, versions and counters. |
| Chain.DomainRootsCohere | engine/internal/engine/engine.go:76-89 | In a loaded chain each domain root of a schema-4 block is the root of that domain's part of the state after the block. |
| Chain.UntouchedDomainKeepsRoot | engine/internal/engine/engine.go:133 | A block that touches no key of a domain keeps its root, the first block that of nothing. |
| Chain.DomainRootBinds | engine/internal/engine/engine.go:133 | Equal domain roots of two chains mean equal parts of their states. |
| Headers.DomainsAre | engine/internal/engine/engine.go:76-89 | Which keys make up each domain, by literal prefix; the aggregate of contracts, storage and accounts too. |
| Headers.BuiltIs | engine/internal/engine/engine.go:129-134 | Every field of a committed block: height, time, previous and own record hash, schema, compression, the transaction root over the JSON of its transactions, the state root, and the seven domain roots by literal prefix. |
| Headers.TxRootsAgree | engine/internal/engine/engine.go:129-133 | Two committed blocks with transaction trees of one height share a transaction root exactly when the texts are equal once padded; with equally many transactions, exactly when these are equal but for empty payloads. |
| Headers.DecidesExactly | engine/internal/engine/engine.go:104-127 | What Commit answers: no transactions, the error of the first invalid one, no change exactly when no operation in sequence moves the state, and a block otherwise. |
| Headers.ChecksAre | engine/internal/engine/engine.go:76-89 | The root checks pass exactly when the state root fits, from schema 3 on the contract, zk and receipt roots, and from schema 4 on all nine. |
| Headers.LinkErrorsAreFirst | engine/internal/engine/engine.go:63-69 | Height, previous hash and record hash over everything else are checked in this order, and the first that does not fit is reported. |
| Headers.ErrorsAreFirst | engine/internal/engine/engine.go:76-89 | A reported root mismatch is the first root that does not fit, in the order of the checks. |
| Headers.LoadsExactly | engine/internal/engine/engine.go:63-93 | A block loads exactly when height, previous hash and the hash of everything but its record hash fit, and the roots fit the state it leads to. |
| Headers.StateRootsCohere | engine/internal/engine/engine.go:76-89 | In a loaded chain every state root is the root of the state after the block, whatever its schema, and the roots checked under schema 3 are those of their keys. |
| Headers.StateRootBindsState | engine/internal/engine/engine.go:76 | Equal state roots in two loaded chains mean equal states after those blocks. |
| Frames.Frame | engine/internal/storage/files.go:52 | Filling the buffer in place yields header words and payload of the frame. |
| Frames.FrameIs | engine/internal/storage/files.go:52 | The record format byte by byte: magic, length, checksum, raw or packed, and the payload packed if that is shorter. |
| Frames.ReadsExactly | engine/internal/storage/files.go:53 | Any bytes read as a record, or as the end of the file, exactly when magic, length from 1 to 256 MiB, checksum and packing say so. |
| Frames.FrameReadsBack | engine/internal/storage/files.go:52-53 | A frame followed by anything reads back as its payload and length, packed or raw. |
| Frames.TornFrameReads | engine/internal/storage/files.go:53 | A proper prefix of a frame is an error, but nothing at all and the bare header read as end of file. |
| Frames.ScanAppended | engine/internal/storage/files.go:54-57 | Appending a frame to whole frames adds exactly its record, at the old end of the file. |
| Frames.ScanTorn | engine/internal/storage/files.go:54 | A torn frame behind whole frames adds no record and is cut at the last whole frame, a bare header excepted. |
| Frames.EntriesRead | engine/internal/storage/files.go:54-59 | Every record found by a scan reads back at its offset. |
| Frames.StreamParses | engine/internal/storage/files.go:52-54 | A concatenation of frames scans into exactly its blocks at their true offsets. |
| Log.TornRecovers | engine/internal/storage/files.go:54 | Recovery keeps the whole frames and their index and truncates a torn tail at the right place. |
| Log.RecoveryIsIdempotent | engine/internal/storage/files.go:54 | On any bytes, recovering twice is recovering once. |
| Log.AppendRefinesList | engine/internal/storage/files.go:56-57 | An accepted append keeps every frame whole in one bounded segment and extends the list and the index by the block. |
| Log.IndexFinds | engine/internal/storage/files.go:57-59 | The index has exactly the heights of the log and finds each block. |
| Log.ReadAllIsLog | engine/internal/storage/files.go:58 | Reading all indexed heights in order gives the blocks of the log. |
| Log.GapsShow | engine/internal/storage/files.go:58 | A log that holds a height but not a lower one never reads as a list in height order. |
| Log.WalReadsBack | engine/internal/storage/files.go:60-61 | The write-ahead log reads back as its block. |
| Store.Files.ScanSegment | engine/internal/storage/files.go:54 | The loop with the moving offset stops where the scan does and indexes what it found. |
| Store.Files.RecoverSegments | engine/internal/storage/files.go:54 | Over all files it leaves exactly the recovered segments and index, by truncations only. |
| Store.Files.OpenActive | engine/internal/storage/files.go:55 | The active segment is created when missing, and its size is the file's length. |
| Store.Files.AppendBlock | engine/internal/storage/files.go:57 | Refuses exactly frames longer than a segment and changes nothing then; otherwise appends one frame, starts a segment exactly when it does not fit behind the last one, and keeps the log valid. |
| Store.Files.ReadBlock | engine/internal/storage/files.go:59 | In a valid store with its heights in order, finds exactly the block of that height in the list, and nothing for any other height. |
| Store.Files.ReadAll | engine/internal/storage/files.go:58 | All indexed blocks by height; for a valid store the list of appended blocks. |
| Store.Files.WriteWAL | engine/internal/storage/files.go:60 | Writes the temporary file and then renames it. |
| Store.Files.ReadWAL | engine/internal/storage/files.go:61 | Reads the frame of any block back as the disk keeps the block, refuses every frame cut short, and finds nothing only without the file. |
| Store.Files.ClearWAL | engine/internal/storage/files.go:62 | Removes the write-ahead log and touches nothing else. |
| Store.Files.Open | engine/internal/storage/files.go:34-46 | Opening fails exactly when a whole record cannot be decoded; otherwise index and active segment describe the recovered files. |
| Engines.Engine.ApplyTxs | engine/internal/engine/engine.go:70-75 | The nested loops apply all operations to state and version index in order. |
| Engines.Engine.CheckRootsOf | engine/internal/engine/engine.go:76-89 | The root checks by schema report the first mismatch. |
| Engines.Engine.ContractAggregateRoot | engine/internal/engine/engine.go:191 | The merged map is the contract, storage and account part of the state. |
| Engines.Engine.ApplyLoaded | engine/internal/engine/engine.go:63-93 | Accepts exactly the blocks that load, says what a refused block has already changed, and adds it to the chain only when accepted. |
| Engines.Engine.FilterBatch | engine/internal/engine/engine.go:105-126 | The rolling loop filters as specified and reports the first invalid transaction. |
| Engines.Engine.Build | engine/internal/engine/engine.go:128-134 | Builds the block with its nine roots and its hash. |
| Engines.Engine.Commit | engine/internal/engine/engine.go:101-148 | Refused batches leave chain and disk unchanged; a built block is persisted by exactly the listed durable steps; after a commit, or when nothing changes, every key holds the bytes the last operation of the batch on it wrote; consistency and durability are kept. |
| Engines.Engine.Get | engine/internal/engine/engine.go:150 | Reads the bytes that the last operation on the key in all blocks wrote, or nothing. |
| Engines.Engine.GetAt | engine/internal/engine/engine.go:151-161 | The backward scan reads the bytes that the last operation on the key in the blocks up to the height wrote, or nothing. |
| Engines.Engine.Verify | engine/internal/engine/engine.go:169 | Succeeds exactly when the blocks load, and so always for a consistent engine. |
| Engines.Engine.Open | engine/internal/engine/engine.go:42-61 | Opening any directory succeeds and yields exactly as specified; a recoverable one gives its list of blocks in memory and on disk. |
| Engines.Engine.CommitOperations | engine/internal/engine/engine.go:179-183 | State, kept operations and operation count after the call do not depend on the batch size, which says where blocks begin: each holds the kept operations of one batch, one transaction each. |
| Engines.Engine.CommitExecution | engine/internal/engine/engine.go:204-205 | Nothing exactly when an account, receipt or log is not JSON; otherwise one transaction with a sorted arrangement of the bundle's operations, which with distinct keys the bundle determines, and whose members can be read afterwards. |
| Bundles.BundleOpsAre | engine/internal/engine/engine.go:205 | The operations of a bundle are exactly the puts of the members of its six maps, each under its literal prefix. |
| Bundles.ValidExactly | engine/internal/engine/engine.go:205 | The members that must be JSON are accounts, receipts and logs. |
| Bundles.OrderDoesNotMatter | engine/internal/engine/engine.go:205 | With distinct keys every sorted arrangement of the operations is the same list, whatever the map order. |
| Bundles.DistinctExactlyWhen | engine/internal/engine/engine.go:205 | The generated keys are distinct exactly when lower-casing merges nothing and the free-form part avoids the rest. |
| Opening.OpenedIsNormalised | engine/internal/engine/engine.go:42-61 | What opening yields is a consistent chain as the disk keeps it, with the write-ahead log gone. |
| CrashSafety.ReplayCrashes | engine/internal/engine/engine.go:53-58 | A crash anywhere in a replay of the write-ahead log keeps the block. |
| CrashSafety.TornOpened | engine/internal/storage/files.go:54 | A log that ends in a torn block opens to the log without it, by one truncation. |
| CrashSafety.RecoverableOpens | engine/internal/engine/engine.go:42-61 | When the write-ahead log is absent, the last block or the next one, the directory opens to its list, and crashes while opening keep it so. |
| Runs.CommitPerforms | engine/internal/engine/engine.go:135-146 | The durable steps of a commit, all taken, append the frame and leave no write-ahead log. |
| Runs.CommitCrashes | engine/internal/engine/engine.go:135-146 | A crash before the rename leaves segments and write-ahead log as they were, one after it the list with the new block, whatever its payloads. |
| Runs.StepKeepsInv | engine/internal/engine/engine.go:42-148 | Every open, commit and crash, commits refused as too long included, keeps the invariant and loses nothing that was to be found. |
| Runs.StuckForever | engine/internal/engine/engine.go:53-58 | A directory left with the write-ahead log of a refused block never opens and never changes again. |
| Runs.RunsAreCrashSafe | engine/internal/engine/engine.go:42-148 | After any run the next open succeeds with exactly the acknowledged blocks, as the disk keeps them, and the in-flight block whose write-ahead log was in place, with their state, versions and counters; it fails exactly when the last write-ahead log is that of a commit refused as too long. |
| Runs.NothingIsLost | engine/internal/engine/engine.go:42-148 | What an open would find at any time, as the disk keeps it, every later open finds in the same place. |
| Runs.BuiltIsRegular | engine/internal/engine/engine.go:54 | Where hash and serialisation keep a new block and the last one apart, its record hash is new, and a commit that fits is one a run admits exactly when no operation with an effect writes an empty slice that is not nil. |
| Runs.CommitIsTheEvent | engine/internal/engine/engine.go:101-148 | The commit of a run is the contract of Engine.Commit, its refusal as too long included. |
| Edges.BareHeaderCrash | engine/internal/storage/files.go:53-57 | After a tear behind the header the next open finds the block, and the one after it exactly when the replay started a new segment. |
| Edges.StrayHeaderLoses | engine/internal/storage/files.go:53-54 | An open that meets a stray header cuts off everything appended behind it in the segment. |
| Edges.StrayHeaderBreaks | engine/internal/storage/files.go:53-58 | When blocks went on in further segments, that cut leaves a gap in the heights and the directory does not open any more. |
| Edges.BareHeaderArises | engine/internal/storage/files.go:57 | That disk is what a commit leaves when its append is cut behind the header. |
| Edges.OpensExactlyWhenItFits | engine/internal/engine/engine.go:135-136 | With a block in the write-ahead log the directory opens exactly when its frame fits a segment. |
| Edges.ReopensExactlyWhenKept | engine/internal/engine/engine.go:46-50 | A quiet log of a chain opens exactly when no operation value of the chain is empty without being nil, and then to its state, versions and counters. |
| Edges.EmptyValueIsCommitted | engine/internal/engine/engine.go:119-121 | On any chain, writing an empty slice to a key that the state does not hold is committed although the disk will not keep it. |
| Compaction.WriteFresh | engine/internal/enterprise/enterprise.go:59 | Appending any list of fitting blocks to an empty store gives clean, bounded segments that hold it. |
| Compaction.Compact | engine/internal/enterprise/enterprise.go:59 | A completed compaction keeps blocks, state, versions and counters; it completes exactly when the directory opens and every block fits. |

## Left out

- RunsAreCrashSafe: does not cover an append torn exactly behind its 16-byte header, where the property is false (`BareHeaderCrash`); it assumes that each block that fits holds no operation value that is empty without being nil, because it is false otherwise (`ReopensExactlyWhenKept`; `BuiltKeepsExactly` says which batches build such blocks), that its record hash is new, which `BuiltIsRegular` derives from the hash and the serialisation, and that a block that does not fit is below 4 GiB.
- BareHeaderCrash: assumes that the checksum in the stray header differs from that of the bytes written behind it, which is the case it is about.
- OpensExactlyWhenItFits: assumes that the stored payload is below 4 GiB, so that its length field is not cut.
- StateRootBinds: assumes NUL-free keys and the height or leaf-size condition, because it is false without them.
- StateRootsAgree: assumes NUL-free keys; without them `PaddedLeavesAgree` is exact between trees of one height.
- ProofsAreSound: assumes NUL-free keys and a path as long as the tree is high, because it is false without them (`NulConditionIsNeeded`, `FalseClaimsExactly`).
- ProofsAreSoundBySize: assumes its three size conditions, because it is false without any of them (`SizeConditionsAreNeeded`).
- CommitExecution: without distinct keys the result depends on how the sort treats ties, which is left open.
- Durable steps reach the disk in program order, each write as a prefix; reordering below fsync and lost renames are not modelled.
- Segment files are numbered 1, 2, ... without gaps, as the store itself creates them; foreign names in the data directory are not modelled.
- Heights and counters are unbounded; overflow of 64-bit counters is not modelled.
- The operation and transaction lists of a block do not distinguish nil from empty; a committed block has neither empty.
- A crash between the two directory renames of compaction, which Open has no step for; only completed compactions are modelled.
- SHA-256, CRC32C, zlib, gob, JSON and hexadecimal error values: arbitrary functions with the facts named above.
- Snapshots, backups, restore, replicas, policies, migration reports, pruning, status, log queries, ZK field checks, the thin Put wrappers, server, command line and client: little logic of their own.
- Cluster commands: documented as deterministic test helpers.
- Lock file, file modes, I/O errors other than crashes, the mutex and slice aliasing: operations are serialised and values immutable.
