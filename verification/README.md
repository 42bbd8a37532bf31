# APFS on-disk structures: a verified model

This project models the on-disk data-structure engine of the repository in Dafny and proves it correct:
the reader in `crates/apfs-core` and the writer in `crates/apfs-fixture`, two separate implementations
of one format. Where both implement a structure, the theorems relate one to the other.

`dafny verify dfyconfig.toml` checks everything.

## How it is laid out

| file | what it models |
|---|---|
| `Bytes.dfy`, `SliceReader.dfy` | little-endian fields, results, and the bounds-checked cursor every parser uses |
| `Checksum.dfy` | Fletcher-64 and what it detects |
| `Hash.dfy` | CRC-32C name hashing on 32-bit words, folding, and lookup by hash |
| `BTree.dfy`, `BTreeTheory.dfy` | binary search, descent, pruned scan and walk over an arbitrary node store; what they mean on a tree |
| `ScanExactness.dfy`, `WorkBound.dfy` | exactly what a scan needs of separators; how many nodes a traversal can load |
| `NodeCodec.dfy`, `NodeWriter.dfy`, `NodeRoundTrip.dfy` | node blocks as the core reads them and as the writer lays them out in its image |
| `Omap.dfy`, `OmapTheory.dfy` | the versioned object map, and exactly what its lookups need |
| `Records.dfy`, `Inodes.dfy` | record builders and parsers |
| `Volume.dfy`, `VolumeTheory.dfy` | queries over a file-system tree whose child references go through the object map |
| `FileRead.dfy` | file contents stitched from extents |
| `ChildLookup.dfy` | children by name, and by stored hash |
| `Decmpfs.dfy`, `RsrcWriter.dfy` | compressed files and the writer's resource forks |
| `PanicFree.dfy` | what no image can make the reader do, and exactly when a read can panic |
| `Spaceman.dfy` | the first-fit allocator and the two free counters |
| `Checkpoint.dfy`, `Container.dfy` | which checkpoint superblock is mounted, and how checked blocks are loaded |
| `Device.dfy` | sector-aligned reads and device windows |
| `FletcherLaw.dfy`, `CrcPolynomial.dfy` | what the two checksums are, without reference to how they are computed |
| `Formats.dfy`, `Mount.dfy`, `MountVolume.dfy` | the mounting structures field by field; which superblock of a device is mounted, and how a volume opens, from their bytes |
| `RecordForms.dfy`, `NodeForms.dfy`, `CompressedForms.dfy`, `SpaceOnDisk.dfy` | records, nodes, compressed files and the space manager byte for byte |
| `Stitching.dfy` | files in several runs |
| `Sorting.dfy`, `EndToEnd.dfy`, `ReadBack.dfy` | the writer's record order, and the chain from inserted records to the reader's answers |
| `WriteFile.dfy` | a file written by the writer and read back by the reader, on one image |
| `Witness.dfy`, `MountWitness.dfy` | that the premises can be met: devices for any records that fit a leaf, one of them mounted, and an image the writer may edit |
| `Counterexamples.dfy` | inputs on which the code departs from its documentation or from a simpler claim |

Code that mutates state is imperative here too: the writer's `Image` and the reader's cursor and
`FileDevice` are classes, output buffers are arrays, and each loop of the source is a loop with
invariants. Each such method is proved equal to a specification function, and the lemmas are about those.

A B-tree traversal is specified by its *trace*: the entries it would show a callback that never stops,
and the error that ends it. `Run` feeds a trace to a callback, which may stop or fail. A node store is
an arbitrary function from references to nodes, so it may be cyclic. A tree (`BTreeTheory.Tree`) and
`Denotes` say which nodes spell out which tree; `Flatten` is its sequence of entries. The scan needs
`Ordered`: keys and separators ascend, and no key of a child exceeds the next child's separator. Where keys
ascend strictly and separators ascend, that last part is exactly what it needs
(`ScanExactness.ScansFindAllIffOrdered`); that a separator bounds its own subtree from below neither
suffices nor matters. A descent on separators that are exactly their subtrees' smallest keys (`ExactSeps`)
brackets any target. Object-map lookups need less: a node's first separator plays no part, and a later one
must lie above the last entry before it and not above the first entry behind it, with a later oid than the
former unless it is the latter's key. `OmapTheory.LookupsRightIffSeparated` proves that condition exact, and
`Counterexamples.LooseMapMisses` builds a map that breaks it and loses a mapping.

Reader and writer share much of their vocabulary here: constants, field offsets and key headers. Round trips
alone would hold for any shared choice, so the `Forms` modules, `Formats` and the two checksum laws state the
same structures a second time, with the format's own numbers and nothing of the model's but bytes.

A Rust panic (an index out of range, a failed assertion, an underflow) is `Err(Panic)`, or `false` or
`None` where the method has no other failure.

## Where the code differs from its documentation or from a simpler claim

The model follows the code.

- `docs/ARCHITECTURE.md:79` and `crates/apfs-core/src/raw.rs:1-5` promise that corrupt input never
  panics. That holds of every lookup and record query (`PanicFree.QueriesAreCalm`) as long as loading a
  block does not, which it does exactly in a build with overflow checks at an address past 64 bits
  (`Container.LoadPanics`). It fails of reads: `copy_window` (`crates/apfs-core/src/decmpfs.rs:134`) slices past the end of data that is two or more bytes
  short, and `xattr` and `read_file` (`crates/apfs-core/src/fs.rs:334`, `:385`) ask for a buffer of whatever
  size the image claims, which panics beyond `isize::MAX`. `PanicFree.FilePanics` and
  `PanicFree.XattrPanics` are the exact conditions, sums past 64 bits aside (see `FileRead.ReadExtents`
  below); `read_file` panics besides when the inode's own size is that large.
- The same line promises no unbounded work. Every walk and scan ends, but seventeen nodes suffice to make one
  load n + n^2 + ... + n^16 of them, n being as much as 4096: `WorkBound` has the bound and the input.
- `crates/apfs-core/src/decmpfs.rs:11` names type 1 as the supported inline type; the code supports type 9.
- A block that is only *as new* as the mounted checkpoint can replace it: in an earlier slot if a slot is
  mounted, and in any slot if block zero is. `Checkpoint.LosingSlotOverwritten` has the exact condition for
  every mounted choice.
- The writer edits the last slot of greatest xid and reads neither checksums nor block zero's age:
  `Checkpoint.WriterAgrees` says exactly when the reader mounts that slot.
- The checksum covers whole 32-bit words only, so a flip in an object's last one to three bytes goes
  unseen when its length is not a multiple of 4: `Checksum.DetectsFlip` is an equivalence.

## Model

| member | source | states |
|---|---|---|
| `BTree.SearchNode` | crates/apfs-core/src/btree.rs:223-243 | the binary search loop computes the search specification, stopping at the first key or comparator error |
| `BTreeTheory.SearchIs` | crates/apfs-core/src/btree.rs:223-243 | on keys ranked Less, Equal, Greater the search finds an Equal key, or else the last Less key, or nothing when all are Greater |
| `BTree.DescendToLeaf` | crates/apfs-core/src/btree.rs:248-284 | root-to-leaf descent over any node store, cyclic ones included: it equals the specification and loads at most 16 nodes |
| `BTreeTheory.DescendSound` | crates/apfs-core/src/btree.rs:258-283 | whatever the store holds, a descent ends in a leaf reachable within 16 loads or in an error |
| `BTreeTheory.DescentPredecessor` | crates/apfs-core/src/btree.rs:248-284 | with every separator its subtree's smallest key, the one leaf a descent reaches brackets the target: everything before that leaf is Less, everything after it is Greater |
| `BTree.ScanFrom` | crates/apfs-core/src/btree.rs:299-311 | a scan feeds its callback the scan trace in order, stops at the first `false` or error, and loads at most as many nodes as one that is never stopped |
| `BTree.ScanRec` | crates/apfs-core/src/btree.rs:314-372 | one level of the scan: lower bound, then leaf entries or the children from the one before the bound |
| `BTree.WalkLeaves` | crates/apfs-core/src/btree.rs:288-294 | a walk feeds its callback the walk trace, with the same stopping rule and the same bound on loads |
| `BTreeTheory.ScanRefinesFilter` | crates/apfs-core/src/btree.rs:299-407 | pruned scan refines filter: on a tree of at most 17 levels whose keys and separators ascend and where no key of a child exceeds the next child's separator, and for any monotone comparator, prefix comparators included, the scan shows exactly the walk's suffix from the first key that is not Less; nothing is asked of a separator and its own subtree |
| `ScanExactness.ScansFindAllIffOrdered` | crates/apfs-core/src/btree.rs:335-371 | that condition is exact: with strictly ascending keys and ascending separators, scans find every entry by its own key if and only if it holds at every node |
| `ScanExactness.MisplacedIsLost` | crates/apfs-core/src/btree.rs:352-353 | a key that exceeds the separator behind its child is lost to the scan for it, at any depth |
| `ScanExactness.LowerBoundsDoNotSuffice` | crates/apfs-core/src/btree.rs:352-371 | an input: separators 1 and 3 over the leaves of 5 and 7 bound their own subtrees from below, and the scan for 4 shows 7 alone |
| `BTreeTheory.ScanIsDropLess` | crates/apfs-core/src/btree.rs:314-372 | the same at every depth of the recursion |
| `BTreeTheory.SkippedKids` | crates/apfs-core/src/btree.rs:352-353 | no child the scan skips holds an in-range key |
| `BTreeTheory.WalkIsFlatten` | crates/apfs-core/src/btree.rs:374-407 | a walk of a tree shows all its leaf entries, in order, once each |
| `BTreeTheory.WalkRejectsDeeper` | crates/apfs-core/src/btree.rs:379-381 | a walk ends without error if and only if no path has more than 17 levels, and otherwise as corrupt |
| `BTreeTheory.ScanSound` | crates/apfs-core/src/btree.rs:314-372 | on an arbitrary store, every entry a scan shows is a real leaf entry reachable within 16 hops |
| `BTreeTheory.WalkSound` | crates/apfs-core/src/btree.rs:374-407 | the same for the walk, which, if it ends without error, shows every reachable entry |
| `WorkBound.WalkIsBounded` | crates/apfs-core/src/btree.rs:374-407 | on nodes of at most n entries a walk from the root loads at most n + n^2 + ... + n^16 nodes, and one more if it ends in an error |
| `WorkBound.ScanIsBounded` | crates/apfs-core/src/btree.rs:314-372 | the same of a scan |
| `WorkBound.ParsedIsNarrow` | crates/apfs-core/src/btree.rs:40-61 | a parsed node has at most 4096 entries |
| `WorkBound.LadderIsClimbed` | crates/apfs-core/src/btree.rs:374-407 | an input that reaches the bound: seventeen nodes, all but the last referring n times to the next, make a walk load n + n^2 + ... + n^16 nodes without error |
| `OmapTheory.LookupRefines` | crates/apfs-core/src/omap.rs:42-84 | a versioned lookup equals the abstract map: the greatest version at or before the target xid, and a miss exactly when there is none or it is a ghost or marked deleted; every separator after a node's first fits between its neighbours, and the map records a key size or has no inner node of fixed-size records |
| `OmapTheory.LookupsRightIffSeparated` | crates/apfs-core/src/omap.rs:42-84 | exactly what lookups need of separators: on a map of live values, no subtree empty and separators after the first ascending, every lookup is right if and only if at every node each separator after the first lies above the last entry of the child before it, not above the first entry behind it, and, unless it is that entry's key, has a later oid than the last entry |
| `OmapTheory.ExactFits` | crates/apfs-core/src/btree.rs:271-272 | separators that are their subtrees' smallest keys meet that condition |
| `Omap.LatestIsGreatest` | crates/apfs-core/src/omap.rs:40-42 | the map's answer is the entry of that oid with the greatest xid not above the target, and there is none only if no entry qualifies |
| `OmapTheory.LooseSeparatorMisses` | crates/apfs-core/src/btree.rs:271-272 | in a root over two leaves: a second separator at or before a target that lies before its whole leaf loses a version at the end of the first leaf |
| `OmapTheory.ZeroKeySizeFails` | crates/apfs-core/src/omap.rs:45-57 | a fixed-size inner root that records no key size makes every lookup an error |
| `OmapTheory.KeySizeNeeded` | crates/apfs-core/src/omap.rs:45-57 | on a map of whole values and fitting separators every lookup is right if and only if a key size is recorded or no inner node holds fixed-size records |
| `Counterexamples.LooseMapMisses` | crates/apfs-core/src/btree.rs:271-272 | an input: a three-block map that holds version 1 of an oid, and whose lookup at transaction 3 misses it |
| `Omap.MappingRoundTrip` | crates/apfs-core/src/omap.rs:67-83 | decoding an encoded mapping gives back all its fields unless the deleted flag is set |
| `NodeForms.FixedLeafMaps` | crates/apfs-core/src/omap.rs:42-84 | a block that lists mappings as fixed-size records of 16 and 16 bytes, recorded or not, is a map in which every lookup finds the latest of them |
| `NodeForms.MappedObjectLoads` | crates/apfs-core/src/omap.rs:67-93 | loading an object through it: its latest mapping marked deleted (flag 1) is a miss, one of an encrypted object (flag 16) is an error, any other leads to its block |
| `OmapTheory.SnapshotIsolation` | crates/apfs-core/src/omap.rs:40-84 | two maps of any shapes that agree on all entries with xid at most X answer every lookup at X alike |
| `VolumeTheory.SourceIsMapped` | crates/apfs-core/src/volume.rs:159-168 | loading a file-system tree child through the object map's tree is loading the block of its latest version in the abstract map |
| `VolumeTheory.PrefixMonotone` | crates/apfs-core/src/fs.rs:163-171 | comparing only (id, type) prefixes is monotone in the order of prefixes, for every target |
| `Volume.RunQuery` | crates/apfs-core/src/fs.rs:175-191 | a record query is its callback run over the scan trace of the volume's tree |
| `VolumeTheory.QueryTraceIs` | crates/apfs-core/src/volume.rs:148-177 | two-tree composition: a query's scan shows exactly the records not below (id, type) of the tree denoted through the map at the volume's xid |
| `VolumeTheory.MatchingIsSelect` | crates/apfs-core/src/fs.rs:180-185 | stopping at the first record of another (id, type) loses nothing |
| `VolumeTheory.QueryIsSelect` | crates/apfs-core/src/fs.rs:175-222 | every query is its callback run over exactly the matching records of the flattened tree |
| `Volume.GetInode` | crates/apfs-core/src/fs.rs:175-191 | the inode query, NotFound when no record matches |
| `VolumeTheory.InodeIsFirst` | crates/apfs-core/src/fs.rs:175-191 | it is the first inode record of that id, parsed |
| `Volume.ReadDirInode` | crates/apfs-core/src/fs.rs:194-222 | the listing query |
| `Volume.LookupChild` | crates/apfs-core/src/fs.rs:225-242 | a child by name: the first entry of the listing whose stored bytes compare equal, up to ASCII case on a case-insensitive volume |
| `ChildLookup.FirstIsFound` | crates/apfs-core/src/fs.rs:230-241 | of several matching entries the first is found |
| `ChildLookup.SameBytesSameName` | crates/apfs-core/src/fs.rs:232-240 | comparing stored UTF-8 bytes is comparing code points, folded or not |
| `ChildLookup.SameNameAnswers` | crates/apfs-core/src/fs.rs:232-240 | names taken for equal without regard to case have equal lengths and at each index the same code point, or one from 65 to 90 and that plus 32 |
| `ChildLookup.ChildReadsBack` | crates/apfs-core/src/fs.rs:225-242 | an inserted child is found by its own name, and where feature bit 0 is set by any that differs in ASCII case alone, when no other child answers to it; a name no child answers to is NotFound |
| `ChildLookup.ReadmeIsFound` | crates/apfs-core/src/fs.rs:229-241 | a lone child stored as "README" is what "readme" finds where feature bit 0 is set, and NotFound where it is not |
| `ChildLookup.HashedLookupAgrees` | crates/apfs-core/src/fs.rs:225-228 | the planned fast path: filtering the records by the hash their keys store, before parsing and comparing, answers every lookup as the linear scan does |
| `VolumeTheory.ListingIsSelect` | crates/apfs-core/src/fs.rs:194-222 | a listing is all directory records of that id, each parsed, in order, or the first parse error |
| `Volume.Extents` | crates/apfs-core/src/fs.rs:264-288 | the extents query |
| `VolumeTheory.ExtentsAreSelect` | crates/apfs-core/src/fs.rs:264-288 | it is all extent records of that stream, each parsed, in order |
| `Volume.Xattr` | crates/apfs-core/src/fs.rs:341-395 | the attribute query: embedded data, or the content of the attribute's own stream; a stream that claims more bytes than a buffer can have is a panic |
| `VolumeTheory.XattrIsFirstNamed` | crates/apfs-core/src/fs.rs:341-358 | it is the first attribute record of that id and name; an unreadable name before it is an error |
| `VolumeTheory.FirstNamedAt` | crates/apfs-core/src/fs.rs:341-358 | that record is the one no other of the name comes before |
| `VolumeTheory.QueriesAreIsolated` | crates/apfs-core/src/volume.rs:164-177 | mappings newer than the reader's xid change nothing any query shows, on any file-system tree |
| `VolumeTheory.OpenIsIsolated` | crates/apfs-core/src/volume.rs:118-137 | the same for opening the volume through the container's map |
| `MountVolume.MapOpensAt` | crates/apfs-core/src/omap.rs:28-38 | an object map laid out field by field opens at its tree; a block of another type is a parse error |
| `MountVolume.VolumeOpens` | crates/apfs-core/src/volume.rs:34-137 | a volume superblock laid out field by field, found through the container's map, opens with exactly its object-map address, root oid and features; encrypted exactly when flag bit 0 is clear, unsupported exactly when it is set and feature bit 5 too |
| `MountVolume.OtherBlocksDoNotOpen` | crates/apfs-core/src/volume.rs:34-40 | a block of another type, or without the tag "APSB", is no volume |
| `MountVolume.MountedInodeReads` | crates/apfs-core/src/container.rs:123-197 | from a device to a file: with the newest checkpoint mounted and a volume opened through its object map, an inserted inode is found with every field it was given |
| `MountWitness.FormatDevice` | crates/apfs-core/src/container.rs:123-168 | a device of sixteen blocks for any records that fit a leaf: its checkpoint of xid 12 in block 4 is mounted, not block zero's of xid 7, and its volume opens and stores the records |
| `Volume.ReadFileAt` | crates/apfs-core/src/fs.rs:292-330 | reading any kind of file: directory error, compressed dispatch, or stitched extents; the rest of the buffer is kept |
| `Volume.ReadFile` | crates/apfs-core/src/fs.rs:333-338 | reading a whole file through a buffer of the size its inode claims, which panics beyond the largest buffer |
| `VolumeTheory.PlainFileIsSparse` | crates/apfs-core/src/fs.rs:292-330 | a read of a plain file is a slice of the sparse file its extent records describe |
| `Volume.ReadLink` | crates/apfs-core/src/fs.rs:398-405 | a link's target is its attribute up to the first NUL; other files are an error |
| `NodeWriter.Image.SerializeNode` | crates/apfs-fixture/src/main.rs:334-404 | completes exactly when the node fits; then table, keys, gap and values partition the data area, the free length is the gap's, header flags and foreign bytes are kept, the checksum is valid and all other blocks are unchanged |
| `NodeWriter.Image.FixChecksum` | crates/apfs-fixture/src/main.rs:55-59 | stamps the block with its own Fletcher-64 and changes nothing else |
| `NodeRoundTrip.ParseNodeImage` | crates/apfs-fixture/src/main.rs:304-332 | the writer's node parser, its panics included |
| `NodeRoundTrip.WriterRoundTrip` | crates/apfs-fixture/src/main.rs:304-404 | the writer's parser recovers the exact record list after serializing, whether or not the table grew |
| `NodeRoundTrip.ReaderRoundTrip` | crates/apfs-core/src/btree.rs:75-164 | the core's key and value accessors recover every key and value, in order, from a serialized node |
| `NodeRoundTrip.FixedAccessors` | crates/apfs-core/src/btree.rs:99-156 | on nodes of fixed-size records the accessors follow the two offsets with the tree's sizes, read child references as 8 bytes, and show the invalid offset as a ghost |
| `NodeRoundTrip.TreeInfoRoundTrip` | crates/apfs-core/src/btree.rs:178-200 | the core reads from a serialized root its old key and value sizes and the new record count |
| `NodeForms.WrittenForm` | crates/apfs-fixture/src/main.rs:334-392 | a written node's header in numbers: count, table kept or grown to the next multiple of 64 that holds eight bytes a record, and free space exactly from the end of the keys to the start of the values |
| `NodeForms.WrittenStats` | crates/apfs-fixture/src/main.rs:393-401 | a written root records its longest key, its longest value and its count |
| `NodeForms.WrittenZeros` | crates/apfs-fixture/src/main.rs:371-383 | its unused table entries and its free space are zeros |
| `NodeForms.NodeParses` | crates/apfs-core/src/btree.rs:40-61 | a node laid out field by field is read field for field, or refused for its type or for more than 4096 keys |
| `NodeForms.FixedRecordReads` | crates/apfs-core/src/btree.rs:99-156 | record i of a node of fixed-size records: key and value where two 16-bit offsets behind the 56-byte header put them, a root's values ending before its 40 bytes of tree information |
| `NodeForms.GhostReads` | crates/apfs-core/src/btree.rs:137-139 | a value offset of 0xFFFF is a ghost |
| `Records.JkeyRoundTrip` | crates/apfs-core/src/fs.rs:12-14 | splitting a built key header gives id and type back if and only if the id has 60 bits and the type 4 |
| `RecordForms.KeyBits` | crates/apfs-fixture/src/main.rs:100-104 | of any 64-bit id the header keeps the low 60 bits, and each of the four above is set if the id or the type has it |
| `Records.ParseDrecName` | crates/apfs-core/src/fs.rs:409-419 | the cursor parser of directory-record names |
| `Records.DrecNameRoundTrip` | crates/apfs-fixture/src/main.rs:172-189 | a directory record's name reads back if and only if its UTF-8 form has at most 1022 bytes and no NUL |
| `Records.DrecValueRoundTrip` | crates/apfs-fixture/src/main.rs:172-189 | and then so do file id, date and type |
| `Records.FileExtentRoundTrip` | crates/apfs-fixture/src/main.rs:198-206 | an extent reads back if and only if its length leaves the flag byte clear |
| `RecordForms.ExtentReads` | crates/apfs-core/src/fs.rs:276-284 | an extent's length is the low 56 bits of its field |
| `Records.XattrRoundTrip` | crates/apfs-fixture/src/main.rs:222-232 | an embedded attribute's name and data read back, each exactly when its length fits 16 bits (and the name holds no NUL) |
| `RecordForms.DrecForm` | crates/apfs-fixture/src/main.rs:172-189 | a directory record byte for byte: type 9 above the 60-bit id, the hash field, UTF-8 and NUL |
| `RecordForms.ExtentForm` | crates/apfs-fixture/src/main.rs:198-206 | an extent record byte for byte: type 8 |
| `RecordForms.XattrForm` | crates/apfs-fixture/src/main.rs:222-232 | an attribute record byte for byte: type 4 |
| `RecordForms.SymlinkForm` | crates/apfs-fixture/src/main.rs:208-220 | a link's target is the embedded attribute com.apple.fs.symlink |
| `RecordForms.PlainKeyReads` | crates/apfs-core/src/fs.rs:409-419 | directory records whose keys are not hashed read back from a 16-bit length |
| `RecordForms.HashedKeyReads` | crates/apfs-core/src/fs.rs:409-419 | hashed keys read back from the low 10 bits of the field whatever the hash, and the type from the low 4 bits of the flags |
| `RecordForms.EncodedShortest` | crates/apfs-fixture/src/main.rs:182 | names are stored in UTF-8: each code point by a form of it, and by the shortest |
| `Inodes.ParseInode` | crates/apfs-core/src/fs.rs:57-136 | the cursor parser of inode records equals the field-offset specification, truncated inputs included |
| `Inodes.WriteInode` | crates/apfs-fixture/src/main.rs:121-170 | the byte-pushing inode builder, padding loop included, equals its specification |
| `Inodes.FixedFieldsRoundTrip` | crates/apfs-core/src/fs.rs:57-93 | whatever the fixed fields hold, each reads back in its place |
| `Inodes.InodeRoundTrip` | crates/apfs-fixture/src/main.rs:121-170 | a built inode parses back to every retained field, name and resolved size if and only if the name and its NUL fit 16 bits and it holds no NUL |
| `RecordForms.InodeForm` | crates/apfs-fixture/src/main.rs:121-170 | an inode record byte for byte: type 3, the fields of j_inode_val_t in order, and the extended fields |
| `RecordForms.BareInodeReads` | crates/apfs-core/src/fs.rs:57-136 | an inode without extended fields reads back field by field, its size the uncompressed one exactly under flags 0x20 and 0x40000; fewer than 92 bytes are an error |
| `SliceReader.Reader.Take` | crates/apfs-core/src/raw.rs:43-50 | a bounds-checked read that moves the cursor only when it succeeds |
| `SliceReader.Reader.Uint` | crates/apfs-core/src/raw.rs:52-71 | a little-endian integer at the cursor, or an error that leaves the cursor |
| `SliceReader.Reader.Skip` | crates/apfs-core/src/raw.rs:35-41 | a bounds-checked skip |
| `Sorting.SortSorts` | crates/apfs-fixture/src/main.rs:77-96 | the writer's sort key orders any records totally: sorting sorts them |
| `Sorting.SortIsStable` | crates/apfs-fixture/src/main.rs:821 | and keeps the order of records with equal keys |
| `RecordForms.SortOrder` | crates/apfs-fixture/src/main.rs:77-96 | the order in bytes: object id, then type, then hash and name for directory records, logical address for extents, name for attributes |
| `EndToEnd.SortedIsHeaderSorted` | crates/apfs-fixture/src/main.rs:93-95 | the sort-key order refines the (id, type) order the reader scans by |
| `EndToEnd.InsertRecords` | crates/apfs-fixture/src/main.rs:821-828 | reading a node, adding records, sorting and writing it back; completes exactly when the node parses and the result fits |
| `EndToEnd.ScanFindsInserted` | crates/apfs-fixture/src/main.rs:821-828 | writer to reader: the written block passes its checksum, and a scan for any (id, type), stopped at the first mismatch, returns exactly the old and inserted records of that (id, type), in key order and with multiplicity |
| `ReadBack.WrittenRootStores` | crates/apfs-core/src/volume.rs:148-168 | a volume whose object map resolves its root to a written block stores exactly the node's old and the inserted records |
| `ReadBack.InodeReadsBack` | crates/apfs-fixture/src/main.rs:121-170 | an inserted inode is found by its id with every field the writer gave it |
| `ReadBack.ListingReadsBack` | crates/apfs-fixture/src/main.rs:172-189 | a listing returns exactly the inserted children |
| `ReadBack.ExtentsReadBack` | crates/apfs-fixture/src/main.rs:198-206 | the extents query returns exactly the inserted extents |
| `ReadBack.PlainFileReadsBack` | crates/apfs-core/src/fs.rs:292-330 | a plain file whose disjoint extents were inserted in any order reads as the sparse file they describe |
| `ReadBack.CompressedFileReadsBack` | crates/apfs-fixture/src/main.rs:787-802 | a file compressed into a resource fork reads back, in any window, through attributes, stream extents and block decoding |
| `ReadBack.LinkReadsBack` | crates/apfs-fixture/src/main.rs:208-220 | an inserted link's target reads back, whole if and only if it holds no NUL |
| `ReadBack.KindIsMode` | crates/apfs-core/src/fs.rs:39-54 | the mode decides what an inode is: a directory from 0x4000 to 0x4FFF, a link from 0xA000 to 0xAFFF; flag 0x20 says it is compressed |
| `ReadBack.DirectoryReadsBack` | crates/apfs-core/src/fs.rs:292-295 | an inserted directory is found and reads neither as a file nor as a link |
| `ReadBack.LinkFileReadsBack` | crates/apfs-core/src/fs.rs:398-405 | an inserted link is found, and its target read |
| `ReadBack.AbsentIsNotFound` | crates/apfs-core/src/fs.rs:190 | an inode or attribute that was not inserted is NotFound |
| `Stitching.StitchedFileReadsBack` | crates/apfs-fixture/src/main.rs:637-657 | a file in several runs, anywhere on the device or holes, its extents inserted in any order: any read is that slice of its parts joined |
| `WriteFile.WriteData` | crates/apfs-fixture/src/main.rs:645-651 | the data written at a block, zero-padded, no other block changed |
| `WriteFile.StoreFile` | crates/apfs-fixture/src/main.rs:637-657 | a file written on one image, its blocks allocated, its data written, its inode and extent inserted: a volume over the image then finds it by id and reads every slice of the data back, and the image is ready for another; it fails only where no allocation is possible or the records do not fit |
| `Spaceman.FindRun` | crates/apfs-fixture/src/main.rs:543-577 | the search returns the least free run, or fails exactly when no run of that length exists |
| `Spaceman.AllocBlocks` | crates/apfs-fixture/src/main.rs:543-577 | exactly the run's bits are set, both counters drop by its length with checksums fixed, no other block changes; it fails only if no run fits or a counter is too small |
| `Spaceman.DiscoverSpaceman` | crates/apfs-fixture/src/main.rs:514-539 | the chunk block is the one whose address lies at the recorded offset, the bitmap the one it names; an address outside the image is a panic |
| `Spaceman.AllocBlocksAllocates` | crates/apfs-fixture/src/main.rs:553-572 | what happens to the blocks is one first-fit allocation of an abstract free set |
| `Spaceman.AllocOne` | crates/apfs-fixture/src/main.rs:543-577 | one call is one first-fit allocation of an abstract free set, possible exactly when a run is free and the counters suffice |
| `Spaceman.AllocAll` | crates/apfs-fixture/src/main.rs:637-643 | any run of calls on one image: the ranges are disjoint and avoid what was used, clear bits and counters stay equal, other blocks are kept, the reader still finds the space manager and counts the clear blocks; it ends early only where an allocation is impossible |
| `Spaceman.AllocationKeepsBalance` | crates/apfs-fixture/src/main.rs:560-571 | an allocation keeps clear bits, chunk counter and device counter equal |
| `Spaceman.BalanceSuffices` | crates/apfs-fixture/src/main.rs:564-569 | while they are equal a counter never underflows |
| `Spaceman.RunKeepsBalance` | crates/apfs-fixture/src/main.rs:543-577 | over any run of allocations the three stay equal and nothing allocated is freed |
| `Spaceman.RangesAreDisjoint` | crates/apfs-fixture/src/main.rs:543-577 | over any run of abstract allocations, balanced or not, a returned range avoids the blocks used at the start and every range before it |
| `Spaceman.FreeBlockCount` | crates/apfs-core/src/container.rs:209-235 | the reader's counter: the free count of the first valid space manager of that oid in the data area |
| `Spaceman.ReaderCountsClear` | crates/apfs-core/src/container.rs:203-235 | while the three are equal the reader reports the number of clear blocks |
| `Spaceman.ReaderSeesAllocation` | crates/apfs-core/src/container.rs:209-235 | after an allocation has rewritten bitmap, chunk and space-manager blocks, the reader finds the space manager where it was and sees the new count |
| `SpaceOnDisk.SpaceIs` | crates/apfs-fixture/src/main.rs:543-571 | what the allocator works on, by the fields of the structures on disk: the bitmap's set bits, the container's block count up to 32768, the chunk's and the device's free counts |
| `SpaceOnDisk.DeviceCounterWritten` | crates/apfs-fixture/src/main.rs:568-571 | rewriting the device's counter changes the free count and the checksum and no other field |
| `SpaceOnDisk.ChunkCounterWritten` | crates/apfs-fixture/src/main.rs:564-567 | and so for the chunk's |
| `SpaceOnDisk.AddressesAre` | crates/apfs-fixture/src/main.rs:514-539 | the address list lies at the recorded offset, the bitmap where the first chunk says |
| `SpaceOnDisk.FreeCountIs` | crates/apfs-core/src/container.rs:209-235 | on any device: the free count is that of the first valid space manager with the superblock's oid in the superblock's data area |
| `SpaceOnDisk.NoManagerNoCount` | crates/apfs-core/src/container.rs:234 | and without one there is no count |
| `FileRead.ReadExtents` | crates/apfs-core/src/fs.rs:304-329 | stitching extents: every byte is that of the sparse file, short only at the end of the file; fails exactly when a stored byte it needs lies outside the device |
| `FileRead.ReadWhole` | crates/apfs-core/src/fs.rs:385-387 | a stream of a size a buffer can have, read whole |
| `FileRead.LastStoringWins` | crates/apfs-core/src/fs.rs:313-328 | where extents overlap the last one that is not a hole decides the byte |
| `FileRead.HolesReadZero` | crates/apfs-core/src/fs.rs:309-321 | a byte no extent stores is zero |
| `Stitching.StitchedReads` | crates/apfs-core/src/fs.rs:304-329 | extents one behind the other, at any blocks, read as their parts in turn |
| `FileRead.OrderIsIrrelevant` | crates/apfs-core/src/fs.rs:313-328 | disjoint extents mean the same file in any order |
| `FileRead.SplitReads` | crates/apfs-core/src/fs.rs:290-330 | any way of cutting a range into consecutive reads gives the single read's bytes, and fails when it does |
| `FileRead.ReadIsSlice` | crates/apfs-core/src/fs.rs:290-338 | every read is a slice of the whole file |
| `Stitching.WholeFileReads` | crates/apfs-core/src/fs.rs:333-338 | a file read whole is its content, or a panic from 2^63 bytes on |
| `Stitching.PastTheEnd` | crates/apfs-core/src/fs.rs:304-307 | at or past its end a plain file reads as nothing, whatever its extents are |
| `Decmpfs.CopyWindow` | crates/apfs-core/src/decmpfs.rs:127-137 | the window copied, zero-filled; it panics exactly when the window starts past the data |
| `Decmpfs.ReadRsrcZlib` | crates/apfs-core/src/decmpfs.rs:152-205 | the block loop equals the random-access specification, every turn making progress; its `take == 0` exit is dead |
| `Decmpfs.ReadAt` | crates/apfs-core/src/decmpfs.rs:89-125 | dispatch over the compression types, with the header's size bounding the read |
| `Decmpfs.RandomAccess` | crates/apfs-core/src/decmpfs.rs:173-204 | a read at any offset is that slice of all blocks decoded one after another |
| `Decmpfs.AdjacentReads` | crates/apfs-core/src/decmpfs.rs:173-204 | successful adjacent reads concatenate to the single read, whatever the blocks hold |
| `Decmpfs.PanicFreeFork` | crates/apfs-core/src/decmpfs.rs:129-134 | no read of a fork panics if and only if no block that decodes falls two or more bytes short of its expected length |
| `Decmpfs.PanicFreeInline` | crates/apfs-core/src/decmpfs.rs:98-109 | no read of an attribute-resident file panics if and only if its data is at most one byte shorter than its header claims |
| `PanicFree.LookupIsCalm` | crates/apfs-core/src/omap.rs:42-93 | no object-map lookup panics, whatever the blocks hold, unless loading a block does |
| `PanicFree.QueriesAreCalm` | crates/apfs-core/src/fs.rs:175-222 | no inode, listing, extent or attribute query panics, whatever the image holds, unless loading a block does |
| `PanicFree.XattrPanics` | crates/apfs-core/src/fs.rs:363-387 | reading an attribute panics if and only if it is a stream that claims more bytes than a buffer can have |
| `PanicFree.FilePanics` | crates/apfs-core/src/fs.rs:292-330 | exactly when some read of a file can panic: its header attribute or its fork is such a stream, or its data or a block decodes two or more bytes short; reads of files that are not compressed never do |
| `Counterexamples.ShortInlinePanics` | crates/apfs-core/src/decmpfs.rs:129-134 | an input: a header that claims two bytes and no data |
| `Counterexamples.ShortForkPanics` | crates/apfs-core/src/decmpfs.rs:199-203 | an input: a fork of one empty stored block for a file of two bytes |
| `Counterexamples.OversizedStreamPanics` | crates/apfs-core/src/fs.rs:385 | an attribute stream that claims 2^63 bytes panics on any volume that stores it |
| `Counterexamples.OversizedDevice` | crates/apfs-core/src/fs.rs:385 | an input: a device that holds one |
| `RsrcWriter.BuildCmpfRsrc` | crates/apfs-fixture/src/main.rs:247-282 | the writer's fork builder |
| `CompressedForms.OffsetsFitIs` | crates/apfs-fixture/src/main.rs:264-268 | the 32-bit offsets the builder needs suffice exactly when the data behind its first field is below 4 GiB |
| `RsrcWriter.ForkRoundTrip` | crates/apfs-fixture/src/main.rs:240-282 | any window of a written fork reads back as that slice of the content, across deflated and stored blocks and the short last one |
| `RsrcWriter.ForkFileRoundTrip` | crates/apfs-fixture/src/main.rs:787-789 | the same through the compression header |
| `RsrcWriter.PlainRoundTrip` | crates/apfs-fixture/src/main.rs:778-782 | a file stored in its attribute reads back in any window |
| `RsrcWriter.DeflatedRoundTrip` | crates/apfs-fixture/src/main.rs:783-786 | a file deflated into its attribute reads back in any window |
| `CompressedForms.TypesRead` | crates/apfs-core/src/decmpfs.rs:89-125 | which types are read, from the header's bytes: 9 and 3 in the attribute, 4 in the fork, inflating at most 64 MiB; every other type, 7, 8, 10 to 12 and 14 among them, is unsupported |
| `CompressedForms.OtherTagsAreRefused` | crates/apfs-core/src/decmpfs.rs:52-57 | a header without the tag "fpmc" is a parse error |
| `CompressedForms.ForkHeaderForm` | crates/apfs-fixture/src/main.rs:272-281 | a written fork's header byte for byte, big-endian |
| `CompressedForms.StreamPlace` | crates/apfs-fixture/src/main.rs:261-271 | where the table behind the header puts each stream |
| `CompressedForms.StreamForm` | crates/apfs-fixture/src/main.rs:248-260 | each stream is a 64 KiB chunk, odd ones stored behind 0xFF, even ones deflated |
| `CompressedForms.ShortByOneReadsZero` | crates/apfs-core/src/decmpfs.rs:127-137 | data one byte short reads as a zero there |
| `Checksum.Fletcher64Object` | crates/apfs-core/src/checksum.rs:12-28 | the loop with its reductions computes the checksum of the unreduced sums |
| `Checksum.VerifyObject` | crates/apfs-core/src/checksum.rs:32-40 | validation compares the stored and the computed checksum; shorter objects fail |
| `FletcherLaw.VerifiesIffSumsVanish` | crates/apfs-core/src/checksum.rs:12-40 | the checksum by its bytes alone: an object of n whole words verifies if and only if neither checksum word is zero and, modulo 2^32 - 1, the plain sum of all words vanishes and so does the sum that counts the first word twice, the second once and word k after them n - k + 2 times |
| `FletcherLaw.ChecksumIsUnique` | crates/apfs-core/src/checksum.rs:32-40 | no other 64-bit checksum makes an object verify |
| `FletcherLaw.ZeroObject` | crates/apfs-core/src/checksum.rs:12-28 | an object of zeros, at any length, has a checksum of all ones |
| `Checksum.StampVerifies` | crates/apfs-fixture/src/main.rs:54-59 | a stamped object is valid and keeps everything after its checksum |
| `Checksum.HalvesInjective` | crates/apfs-core/src/checksum.rs:25-27 | equal checksums have sums equal modulo 2^32-1 |
| `Checksum.Pow2Invertible` | crates/apfs-core/src/checksum.rs:8 | a power of two times a number is 0 modulo 2^32-1 only if the number is |
| `Checksum.DetectsFlip` | crates/apfs-core/src/checksum.rs:55-57 | flipping a bit of a valid object of any length is detected if and only if the bit lies in a whole word |
| `Checksum.DetectsTwoFlips` | crates/apfs-core/src/checksum.rs:55-57 | flipping any two bits of a valid object of fewer than 2^32-3 words is detected if and only if one of them lies in a whole word |
| `Container.Load` | crates/apfs-core/src/container.rs:243-256 | a block is loaded if it lies on the device and its checksum is valid; the 64-bit product of its address is modelled for builds with and without overflow checks |
| `Container.WrappedBlock` | crates/apfs-core/src/container.rs:243-248 | a build without overflow checks takes the block 2^64 bytes further on for the one asked for |
| `Container.DamageIsRefused` | crates/apfs-core/src/container.rs:250-256 | a loadable block with one or two bits damaged is refused by its number, and no other block is affected |
| `Hash.Crc32c` | crates/apfs-core/src/hash.rs:15-25 | the nested loops compute the byte-wise CRC over the whole input |
| `CrcPolynomial.CrcIsRemainder` | crates/apfs-core/src/hash.rs:15-25 | over GF(2), the register after a message is the remainder of the seeded message times x^32 on division by the generator of section 12.1 of RFC 3720, written by its exponents |
| `CrcPolynomial.RemainderIsUnique` | crates/apfs-core/src/hash.rs:15-25 | there is only one such remainder |
| `Hash.DrecNameLenAndHash` | crates/apfs-core/src/hash.rs:29-47 | the length-and-hash field of a name |
| `CrcPolynomial.NameFieldIsRemainder` | crates/apfs-core/src/hash.rs:29-47 | the field of a name: the low 22 bits of that remainder for its UTF-32 form, ASCII capitals folded on request, from a seed of ones, above the low 10 bits of its length with NUL |
| `Hash.StepBijective` | crates/apfs-core/src/hash.rs:19-22 | a bit step is a bijection on 32-bit states, by an explicit inverse |
| `Hash.StepLinear` | crates/apfs-core/src/hash.rs:19-22 | a bit step distributes over exclusive or |
| `Hash.FeedAppend` | crates/apfs-core/src/hash.rs:15-25 | feeding a concatenation is feeding its parts in turn |
| `Hash.FeedDifference` | crates/apfs-core/src/hash.rs:15-25 | a difference between two states is carried through any input by shifting alone, whatever the input holds |
| `Hash.OneCodePointApart` | crates/apfs-core/src/hash.rs:29-44 | names of equally many code points that differ after folding in exactly one have different 32-bit hashes, and names equal after folding the same one |
| `Hash.FoldCongruence` | crates/apfs-core/src/fs.rs:225-242 | names a lookup takes for equal carry identical length-and-hash fields |
| `Checkpoint.OpenContainer` | crates/apfs-core/src/container.rs:123-168 | the mounted superblock is that of the unique choice: the first slot of greatest xid among readable, right-typed, checksum-valid blocks, or block zero if valid and strictly newer |
| `Mount.SuperblockReads` | crates/apfs-core/src/container.rs:52-115 | a container superblock laid out field by field is read field for field; of another type, too short or of another block size it is refused |
| `Mount.NewestIsMounted` | crates/apfs-core/src/container.rs:123-168 | on any device: the newest valid superblock of descBase..descBase + descBlocks, the first of them, is mounted with its own fields unless a valid block zero is newer, whatever other blocks hold |
| `Mount.BlockZeroIsMounted` | crates/apfs-core/src/container.rs:161-167 | a valid block zero newer than all of them is mounted |
| `Mount.NothingIsMounted` | crates/apfs-core/src/container.rs:167 | without a valid one anywhere the container is corrupt |
| `Mount.TreeAreaIsRefused` | crates/apfs-core/src/container.rs:139-143 | a descriptor area kept in a tree is unsupported |
| `Mount.OtherBlocksDoNotMatter` | crates/apfs-core/src/container.rs:138-158 | writing any block outside block zero and the descriptor area, the data area included, changes nothing that is mounted |
| `Checkpoint.ScanDescriptors` | crates/apfs-core/src/container.rs:138-158 | the scan keeps the first slot of greatest xid |
| `Checkpoint.ChoiceIsUnique` | crates/apfs-core/src/container.rs:136-166 | there is only one such choice |
| `Checkpoint.LosingSlotOverwritten` | crates/apfs-core/src/container.rs:143-165 | whatever is mounted, a slot, block zero or nothing: overwriting a slot that is not mounted keeps the choice if and only if the new block may not be mounted, is older, or, over a mounted slot, is as old and further on; otherwise the new block is mounted |
| `Counterexamples.EqualXidInEarlierSlot` | crates/apfs-core/src/container.rs:157-158 | an input: a different superblock of the mounted xid in an earlier slot is mounted instead |
| `Counterexamples.EqualXidUnderBlockZero` | crates/apfs-core/src/container.rs:161-166 | an input: block zero loses to a slot of its own xid |
| `Checkpoint.NewerSlotWins` | crates/apfs-core/src/container.rs:143-165 | a strictly newer valid block becomes the choice wherever it is written |
| `Checkpoint.FallsBack` | crates/apfs-core/src/container.rs:143-165 | destroying the mounted slot falls back to one no newer; to block zero exactly when it is strictly newer than every other slot, and to nothing exactly when nothing else may be mounted |
| `Checkpoint.DiscoverLatest` | crates/apfs-fixture/src/main.rs:455-470 | the writer's own scan: the last slot of greatest xid, checksums unread; a block outside the image, none found and block zero chosen are panics |
| `Checkpoint.WriterAgrees` | crates/apfs-fixture/src/main.rs:455-469 | the reader mounts the slot the writer edits if and only if that slot is checksum valid, no other valid slot is as new, and a valid block zero is not newer |
| `Counterexamples.WriterMissesBlockZero` | crates/apfs-fixture/src/main.rs:455-469 | an input: a newer block zero is mounted in place of the writer's valid slot |
| `Device.FileDevice.ReadAligned` | crates/apfs-core/src/device.rs:51-63 | a read widened to sectors into a bounce buffer |
| `Device.FileDevice.ReadAt` | crates/apfs-core/src/device.rs:67-83 | the read with its sector-size escalation |
| `Device.AlignedIsDirect` | crates/apfs-core/src/device.rs:51-63 | a widened read is the direct read if and only if the wanted range leaves the file or the widened one does not |
| `Device.ReadsAreDirect` | crates/apfs-core/src/device.rs:67-83 | on a medium of whole sectors every read is the direct read and the guess stays usable |
| `Device.SliceIsWindow` | crates/apfs-core/src/device.rs:129-142 | a window inside its device reads as the bytes it frames, and past its end as an error, of another kind where the range passes 64 bits |

## Left out

- Error message texts: an error is its kind only.
- 64-bit wrap-around of the other computed addresses: the checkpoint scans take addresses as unbounded, so
  one past 2^64 lies outside the device and its read fails, where the code aborts or wraps.
- Running out of memory: a buffer of at most `isize::MAX` bytes is always granted.
- The zlib algorithm: a pair of functions with two laws, inflating undoes deflating within the limit, and
  the first byte of a stream has compression method 8 (section 2.2 of RFC 1950).
- Unicode: names are code points or their UTF-8 bytes; lossy decoding of invalid UTF-8, UTF-16 and
  normalization are not modelled. The code folds ASCII only.
- Superblock fields that mounting and the queries do not use, the superblock's volume list, and GPT partition
  tables.
- Path resolution (`lookup_path`, `read_dir`): a fold of single lookups.
- The writer's own object-map lookup (`omap_lookup_first`), its extent-reference and data-stream-id
  records, its fixed list of files and its counter bumps.
- A node store, a loader and a device are functions or byte sequences: locks, caching by the operating
  system and reads that fail only sometimes are not modelled. `FileDevice` keeps its sector-size guess as a
  field without concurrent readers.
- The mount front end, drive letters, updater and command line.
- RsrcWriter.BuildCmpfRsrc: requires that the fork's offsets fit 32 bits, because the source's running
  32-bit sum overflows otherwise.
- Spaceman.AllocBlocks: requires that the space manager, the chunk information block and the bitmap are
  separate whole blocks other than block zero, which the writer takes for granted on a fresh image.
- Spaceman.AllocOne: requires the same.
- Spaceman.AllocAll: requires the same, and that bitmap and counters agree at the start.
- Inodes.InodeRoundTrip: a data stream's crypto id and byte counters, which the reader drops, are not stated.
- FileRead.ReadExtents: requires that no sum this read computes, the end of an extent or the device address
  of a part it needs, passes 2^64, where the code aborts or wraps depending on how it was built.
- FileRead.ReadWhole: the same, and a size within the largest buffer; the panic beyond it is stated by
  `Volume.Xattr` and `Volume.ReadFile`.
- Volume.Xattr: requires the same of the stream it reads. It reads a stream-backed value when the scan has
  stopped rather than inside its callback, which stops there; the results are the same.
- Volume.ReadLink: requires the same of the link's own attribute.
- Volume.ReadFileAt: requires the same of the streams this read gets to.
- Volume.ReadFile: requires the same of the streams it gets to.
- OmapTheory.LookupRefines: a map with an inner node of fixed-size records must record its key size, and its
  separators must fit; `OmapTheory.KeySizeNeeded` and `OmapTheory.LookupsRightIffSeparated` show that they must.
- Device.FileDevice.ReadAligned: a range that ends past 2^64 is a parse error here, where the source's first sum is
  unchecked and aborts or wraps depending on how it was built.
- WriteFile.StoreFile: the metadata blocks are taken to lie apart and to be marked used, and the object map to be a
  single leaf, as the writer takes them on a fresh image.
