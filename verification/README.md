# Verified models of the container-image and job-running core

Dafny models of the parts of the system where state, layout arithmetic and interleaving meet, with proofs about them. Each component is a group of modules:

- **EROFS images** (`Bytes`, `Paths`, `ErofsDisk`, `ErofsDirents`, `ErofsTree`, `ErofsXattr`, `ErofsPacking`, `ErofsImage`, `ErofsStages`, `ErofsWalks`, `ErofsAddresses`, `ErofsLimits`, `ErofsReadBack`, `ErofsAttributes`, `ErofsListing`, `ErofsFiles`, `ErofsInserts`, `ErofsLinks`, `ErofsBuild`, `ErofsReader`, `ErofsForeign`, `ErofsFormat`, `ErofsCompressed`). The builder streams file blocks, resolves hard links, then walks its tree four times: it reserves dirent blocks, writes directory inodes, writes the other inodes, and fills in the dirents. The reader finds everything again from offsets. The main result is `ErofsBuild.Builder.IntoInner`: in the finished image every list of names, `.` and `..` included, leads to the inode of the node it leads to in the tree, every file, symlink and hard link reads back exactly the bytes it was added with, directories list their entries with the types of the inodes they lead to, and aligned attributes come back as given; and the image is finished whenever the links resolve and the tree is within the depth, record, id and block limits. It is claimed for buildable trees, a condition on names and record lengths that the builder does not check; nothing is required of the caller. Nothing written by one walk is overwritten by another, and the image is laid out as superblock, data blocks, dirent blocks, inodes. `ErofsForeign` and `ErofsCompressed` are about images that others build: compact inodes, inline directories, and files stored in compressed or plain chunks.
- **Layer squashing** (`RawPaths`, `OrderedLookup`, `Deletions`, `Squash`, `SquashTree`, `SquashIndex`, `SquashMeaning`, `SquashStats`, `SquashNormal`, `SquashFamilies`). The squasher goes over the layers from the top down with an ordered deletion index that looks at one key only. The reference applies the layers from the bottom up, on places (paths without their slashes and `.`), with whiteouts, opaque markers, and files that take the place of directories. The main result is `SquashMeaning.SquashIffClear`: for all layers, what comes out is what applying the layers gives, if and only if the layers are clear, a condition on the layers alone. Nothing visible is ever lost (`NothingLost`, and `LostOnlyIf` for all layers). For paths in normal form a marker takes effect unless a stored key comes between (`SquashNormal`), so a whiteout of any name, or an opaque directory, over any proper layer is squashed exactly. `SquashStats` gives the reason of every dropped entry in terms of the layers above, and the counters as the numbers of entries dropped for each. `SquashFamilies` has four families of layers that are not clear: an opaque directory with an entry of its own, an opaque marker in the root directory, a file in the place of a directory, and a directory written with its slash in two layers.
- **Archives** (`Archive`, `Unpack`, `UnpackDir`). A stack-structured format with one encoder shape and two decoders. Packing a forest and unpacking it returns its files in order; the visiting decoder accepts exactly the encodings of balanced message lists; the decoder that unpacks into a directory agrees with it, except that it also accepts an archive that stops right after a directory of the starting directory and refuses one that takes a path twice.
- **Blob store** (`BlobStore`, `BlobOwners`). Fetching to a temporary name, checking, renaming, caching, evicting, and loading from disk, as steps that interleave in any way. In every reachable state a file under a digest's name holds bytes of that digest, a cached digest has its file, and a descriptor handed out has the right bytes and size and never changes. No file is left without an owner, cached or being fetched, unless nobody waited for it, and then only until the next restart.
- **Admission** (`Admission`, `AdmissionServes`, `CpuSets`). The two semaphores, the bounded queue and the pool threads as steps that interleave in any way. Permits are conserved in every reachable state; a request finds the queue full only if a job is in it whose client has gone away; with no client going away every submitted job gets exactly one reply, however the threads are scheduled; no more threads end than clients go away, and as long as one is left every waiting client is answered, a new request is served, and all permits become free again. Jobs are taken in the order they were submitted.

In-place state of the source is kept as classes with fields (`Builder`, `DirentsIterator`, `DeletionIndex`, `Packer`, `Unpacker`) and loops; protocols with interleaving are state machines whose steps are values of a datatype. SHA-256, LZ4 and the kernel's treatment of odd names are function parameters. Randomness, clocks and I/O errors do not appear.

Where the code and its comments disagree the code is modelled:

- `write_inode` is documented to leave the writer level with `inode_addr`; a record of exactly one block at a block boundary does not, and lies one block before where its id says (`ErofsBuild.Builder.WriteInode` states both cases, `ErofsAddresses.OneBlockRecord` has such a record).
- A hard link to a symlink becomes a regular file with the symlink's target as its contents (`ErofsLinks.LinkOneFiles`).
- The attribute area is padded once by the writer and after every entry by the reader (`ErofsXattr.XattrRoundTrip` gives the exact condition).
- The fifth attribute prefix is the empty string, so the sixth is never chosen (`ErofsXattr.PrefixAlwaysFound`).
- The squasher's tests want a trailing slash to make no difference; a path handed on with one does not shadow itself (`Deletions.SeenShadows`), and a directory written so in two layers comes out twice (`SquashFamilies.SlashRepeated`).
- The squasher's tests expect an opaque marker in the root directory to remove everything below, in a test marked as not handled; the code drops no entry at the top for it (`SquashFamilies.RootOpaqueMissed`).
- Reading compressed data, a length that would be negative is an error here; in the source it is unsigned arithmetic that panics or wraps.

## Model

| member | source | states |
|---|---|---|
| ErofsTree.InsertedLeaf | peerofs/src/build.rs:553-562 | After a successful insert the leaf at every path is known: the new one at its own path, none below it, and the old one everywhere else. |
| ErofsTree.FailedInsertKeepsLeaves | peerofs/src/build.rs:590-652 | An insert that fails part of the way down, having created directories, changes no leaf at any path. |
| ErofsTree.UpsertKeepsLeaves | peerofs/src/build.rs:537-551 | Making or updating a directory, also when it fails, changes no leaf at any path. |
| ErofsTree.UpsertedMeta | peerofs/src/build.rs:537-551 | After upserting a directory every directory's metadata is known: the new one at the path, defaults for directories made on the way, unchanged elsewhere. |
| ErofsInserts.InsertIff | peerofs/src/build.rs:586-652 | An insert succeeds exactly if the path ends in a name, has no "..", and nothing above it is a file or symlink. |
| ErofsInserts.UpsertIff | peerofs/src/build.rs:537-551 | Making or changing a directory succeeds exactly if the path has no "..", is more than a root, and neither it nor anything above it is a file or symlink. |
| ErofsInserts.RawInsertIff | peerofs/src/build.rs:597-604 | The same for an insert at a path given as bytes, the empty path and the paths of the root included. |
| ErofsInserts.RawUpsertIff | peerofs/src/build.rs:597-604 | The same for a directory at a path given as bytes: the empty path never, the paths of the root always. |
| ErofsInserts.InsertedMeta | peerofs/src/build.rs:553-562 | After a successful insert every directory's metadata is known: gone at the path and below, defaults for directories made on the way, unchanged elsewhere. |
| ErofsPacking.PrepareDirentData | peerofs/src/build.rs:684-726 | The loop's counts are the greedy packing of the entries into blocks, and total size the bytes they take, if and only if every name fits a block with its header. |
| ErofsPacking.PackingUnique | peerofs/src/build.rs:684-726 | There is only one greedy packing, so the counts are determined by the names. |
| ErofsDirents.DirentRoundTrip | peerofs/src/disk.rs:704-797 | Iterating over packed dirent blocks, the last one cut at its length, gives back exactly the entries in order, names last in a block recovered from the zero padding; the bytes may be split into a block part and an inline tail in any way the format allows, an empty block part included. |
| ErofsDirents.FindInRead | peerofs/src/disk.rs:1343-1349 | Searching while iterating finds the first entry of that name among all entries. |
| ErofsDirents.LastNameCut | peerofs/src/disk.rs:765-769 | The last name of a block is never read with a zero byte in it, so a name with one written there is not read back. |
| ErofsXattr.PrefixAlwaysFound | peerofs/src/disk.rs:1533-1549 | Every key has a built-in prefix, and it is never the sixth. |
| ErofsXattr.KeyRoundTrip | peerofs/src/disk.rs:1122-1135 | The prefix put back in front of the stored name gives the key again. |
| ErofsXattr.XattrBytesLen | peerofs/src/disk.rs:1497-1526 | The area written for any attribute list is as long as its count field says, so the tail begins at `inode_end`. |
| ErofsXattr.XattrRoundTrip | peerofs/src/disk.rs:876-902 | Written attributes are iterated back as given if and only if every payload is positive and all but the last are multiples of 4. |
| ErofsXattr.MisalignedExample | peerofs/src/disk.rs:876-902 | Two attributes of one payload byte each cannot be read back. |
| ErofsStages.DirInodesKept | peerofs/src/build.rs:1108-1133 | Writing outside the range of the directory inodes keeps every one of them in place. |
| ErofsStages.NodeLeafInodesKept | peerofs/src/build.rs:1120-1133 | Writing outside the range of the file and symlink inodes keeps every one of them in place. |
| ErofsStages.DirentsKept | peerofs/src/build.rs:461-512 | Writing outside the run of blocks reserved for a directory and what is below it keeps all their dirents. |
| ErofsStages.PlacedGrows | peerofs/src/build.rs:359-370 | Block reservations of the first walk survive the walks that fill in disk ids. |
| ErofsAddresses.SteadyFrom | peerofs/src/build.rs:1037-1075 | Whether any record of one whole block comes to a block boundary depends on the lengths of the tree's records alone, not on where the stream starts. |
| ErofsAddresses.SteadyGrows | peerofs/src/build.rs:1037-1075 | The walks do not change it. |
| ErofsAddresses.OneBlockRecord | peerofs/src/build.rs:1037-1075 | A directory with one attribute can have a record of exactly one block, which the checks accept. |
| ErofsLimits.PackedCount | peerofs/src/build.rs:684-726 | The greedy packing has as many blocks as filling each as far as it goes gives. |
| ErofsLimits.ReservedBlocks | peerofs/src/build.rs:302-336 | The blocks the first walk reserves for a tree are those its names take. |
| ErofsLimits.RecordSizeIff | peerofs/src/build.rs:994-1036 | The checks on an inode's attributes and size pass exactly if every name has at most 255 bytes after its prefix, every value at most 65535, and the record fits a block. |
| ErofsLimits.EndsFrom | peerofs/src/build.rs:1037-1075 | The inode addresses of a tree, wherever the meta block is: directories first, then the rest, never going back. |
| ErofsLimits.EmptyWithin | peerofs/src/build.rs:730-754 | The empty image is buildable and within the limits. |
| ErofsBuild.Builder.constructor | peerofs/src/build.rs:730-754 | A new builder is valid, holds no files, and starts after the first block. |
| ErofsBuild.Builder.HookMeta | peerofs/src/build.rs:879-885 | User and group are moved up by the same increment and nothing else changes, exactly if both still fit 32 bits. |
| ErofsBuild.Builder.ZeroFill | peerofs/src/build.rs:780-794 | Exactly the zeros up to the alignment are written, and nothing else changes. |
| ErofsBuild.Builder.DiskIdOf | peerofs/src/build.rs:796-809 | A disk id is given only to an address that the reader's offset formula takes it back to, and fits 32 bits. |
| ErofsBuild.Builder.SkipToBlock | peerofs/src/build.rs:1037-1043 | The address moves to the next block when the record would reach it; writer and address stay level and the record inside one block, except for a record of one whole block at a boundary. |
| ErofsBuild.Builder.WriteRecord | peerofs/src/build.rs:1051-1072 | Inode, attribute area and tail are written one after the other at the writer's position. |
| ErofsBuild.Builder.WriteInode | peerofs/src/build.rs:994-1081 | The record lies where its disk id says, aligned, inside one block, after all earlier records, and the writer stays level with the address; but a record of a whole block at a boundary lies one block before that, and the writer falls a block behind. From a writer in step it succeeds exactly if the record fits and its id fits 32 bits. |
| ErofsBuild.Builder.WalkPrepare | peerofs/src/build.rs:302-336 | The first walk changes nothing of the tree but block counts that add up to the entries; if names fit, every directory has its own consecutive run of blocks, in walk order. It succeeds if the tree is not too deep and its blocks fit 32 bits. |
| ErofsBuild.Builder.WalkDirInodes | peerofs/src/build.rs:398-416 | The second walk gives every directory an id and, from a writer in step and with no whole-block record at a boundary, its inode at that id, the address moving as computed from the tree; the first one, the root's, at the start of the stream. It succeeds if depth, records and addresses are within the limits. |
| ErofsBuild.Builder.WalkInodes | peerofs/src/build.rs:418-457 | The third walk does the same for every file and symlink, after all directory inodes, and succeeds within the same limits. |
| ErofsBuild.Builder.SeekBlock | peerofs/src/build.rs:768-774 | The writer is moved only when the block is not the current one. |
| ErofsBuild.Builder.WriteDirents | peerofs/src/build.rs:461-512 | A directory's blocks hold its entries, packed as reserved, with its own id under "." and its parent's under "..". |
| ErofsBuild.Builder.WalkDirents | peerofs/src/build.rs:459-518 | The fourth walk restores the parent stack from which ".." is taken and, with blocks reserved and ids given, fills the dirents of every directory into exactly the blocks reserved; it then succeeds if the tree is not too deep. |
| ErofsBuild.Builder.AppendBlocks | peerofs/src/build.rs:844-859 | A file's blocks are appended at the next data block; the builder stays valid if the reader gave all their bytes. |
| ErofsBuild.Builder.AddLeaf | peerofs/src/build.rs:521-535 | It succeeds exactly if the path has no slash at its end and can be inserted at; the tree's leaves, directories and the map of given files then change at the leaf's path and below it only, directories above it made as needed. |
| ErofsBuild.Builder.AddFile | peerofs/src/build.rs:813-877 | It succeeds exactly if the size is below the limit, a block number is left for its blocks, the reader has the tail's bytes, the owners fit, and the path can be inserted at. The file's bytes, metadata and length are then at its path and no other file changes; the writer falls out of step exactly when the reader is short of block bytes. |
| ErofsBuild.Builder.AddSymlink | peerofs/src/build.rs:892-933 | It succeeds exactly if a block number is left for its blocks, the owners fit, and the path can be inserted at. The target and metadata are then at the symlink's path and no other file changes. |
| ErofsBuild.Builder.UpsertDir | peerofs/src/build.rs:887-890 | It succeeds exactly if the owners fit and the path can be upserted. The directory then has the metadata, directories made on the way the default, and no file and no other directory's metadata changes. |
| ErofsBuild.Builder.AddLink | peerofs/src/build.rs:935-944 | The link is kept for later; no file changes. |
| ErofsBuild.Builder.ResolveLinks | peerofs/src/build.rs:1139-1175 | Links are resolved in order up to the first error; on success the given files are those before with each link's target bytes, as they are by then, at its path. |
| ErofsLinks.BumpFiles | peerofs/src/build.rs:1152-1156 | Counting one link more at the target changes no file. |
| ErofsLinks.LinkOneFiles | peerofs/src/build.rs:1139-1175 | A link resolved has its target's bytes at its path, hides what was below, and changes no other file; one that fails changes none. |
| ErofsLinks.FoundIff | peerofs/src/build.rs:566-573 | A leaf is found at a path exactly if the path ends in a name, has no "..", and the leaf is there. |
| ErofsLinks.LinkIff | peerofs/src/build.rs:1139-1175 | A link resolves exactly if its target is a file or symlink by then and its own path can be inserted at. |
| ErofsLinks.LinkedLeaf | peerofs/src/build.rs:1139-1175 | After a link the leaf at every path is known: a regular file with the target's bytes, the link's metadata and a count of two at its path, none below it, the target with one link more, and the old one everywhere else. |
| ErofsBuild.Builder.WriteInodes | peerofs/src/build.rs:1088-1137 | For a buildable tree the first three walks leave dirent blocks reserved up to the meta block and all inodes after it, the root with disk id 0; the fourth writes only in the reserved blocks. Within the limits it succeeds. |
| ErofsBuild.Builder.WriteSuperblock | peerofs/src/build.rs:946-971 | The superblock with meta block, root id and inode count is at its offset and only its 128 bytes changed; it is written exactly if the meta block is set and fits 32 bits and the root has an id that fits 16. |
| ErofsBuild.Builder.Finish | peerofs/src/build.rs:1177-1183 | Links are resolved; if the tree with its links is buildable the image is complete, every file is as given, and superblock, data, dirent blocks and inodes lie in disjoint ranges in this order. It succeeds if the links resolve and that tree is buildable and within the limits. |
| ErofsBuild.Builder.IntoInner | peerofs/src/build.rs:1185-1191 | If the tree with its links is buildable, looking up any names in the image gives what they lead to in the tree, every file, symlink and link reads back its bytes, every directory lists its entries with the types of the inodes they lead to, and aligned attributes of every node come back as given. It succeeds if the links resolve and that tree is buildable and within the limits. |
| ErofsReadBack.InodeRoundTrip | peerofs/src/disk.rs:524-538 | An inode parsed from its bytes, whatever follows, is the inode. |
| ErofsReadBack.LeafInodeTells | peerofs/src/build.rs:372-396 | The inode of a file or symlink tells owner, group, time, permission bits, size, links and type of the leaf. |
| ErofsReadBack.DirInodeTells | peerofs/src/build.rs:372-396 | The inode of a directory tells its owner, group, time, permission bits and type. |
| ErofsReadBack.ReadRecord | peerofs/src/disk.rs:997-1042 | A record is found through its disk id, and its tail lies at `inode_end`. |
| ErofsAttributes.NodeAttributes | peerofs/src/disk.rs:1105-1120 | The attributes of every directory, file and symlink of a finished image are iterated back as stored if and only if the list is aligned, and then are the given ones, prefixes included. |
| ErofsAttributes.AttributesReadBack | peerofs/src/disk.rs:1105-1135 | Looked up by any names that lead to a node, its aligned attributes are the ones given. |
| ErofsXattr.RestoreStored | peerofs/src/disk.rs:1122-1135 | Every list of attributes comes back from its stored form. |
| ErofsReadBack.ReadLeafData | peerofs/src/disk.rs:1050-1088 | Both parts of `get_data` together are the bytes of the file or symlink. |
| ErofsReadBack.ListDir | peerofs/src/disk.rs:1090-1096 | Iterating over a finished directory gives exactly its entries in order. |
| ErofsListing.TypeAgrees | peerofs/src/build.rs:273-279 | The type code written for an entry is the type of the inode of the node it stands for. |
| ErofsListing.ListsBack | peerofs/src/disk.rs:1090-1096 | Listing any directory of a complete image gives its children in order, each entry with its name, the id of the inode the name leads to, "." and ".." included, and that inode's type. |
| ErofsReadBack.StepFollows | peerofs/src/disk.rs:1341-1350 | One component of a lookup goes to the inode of the node that the tree gives, also for "." and ".." and at the root. |
| ErofsReadBack.LookupResolves | peerofs/src/disk.rs:1339-1353 | Looking up any list of names in a complete image is resolving it in the tree, with the same answer when it is missing or runs through a file. |
| ErofsReadBack.LeafReadsBack | peerofs/src/disk.rs:1339-1353 | Every file and symlink of the tree is found with its type and size and read with its own bytes. |
| ErofsReadBack.ReadSuper | peerofs/src/disk.rs:979-987 | The superblock read back is the one written. |
| ErofsFormat.SuperLayout | peerofs/src/disk.rs:155-182 | The superblock's 128 bytes have magic, block size, root, inode count and meta block at the offsets of the EROFS format, little-endian. |
| ErofsFormat.ExtendedLayout | peerofs/src/disk.rs:200-215 | The same for the fields of an extended inode. |
| ErofsFormat.CompactLayout | peerofs/src/disk.rs:184-198 | The same for the fields of a compact inode. |
| ErofsFormat.DirentLayout | peerofs/src/disk.rs:289-295 | The same for inode number, name offset and type of a dirent. |
| ErofsFormat.PrefixTable | peerofs/src/disk.rs:279-286 | The table of attribute prefixes is the format's, in the order of their ids. |
| ErofsForeign.OpenIff | peerofs/src/disk.rs:979-987 | An image is opened exactly if it reaches beyond the superblock and has the magic number there. |
| ErofsForeign.CompactRoundTrip | peerofs/src/disk.rs:524-538 | A compact inode parsed from its 32 bytes, whatever follows, is the inode. |
| ErofsForeign.HeldIsRead | peerofs/src/disk.rs:1001-1038 | A record of either form, anywhere in an image, is found through its disk id, and its tail lies at `inode_end`. |
| ErofsForeign.DataIsRead | peerofs/src/disk.rs:1050-1088 | Both parts of the data of an inode of either form, plain or inline and for any block size, are what the image holds for it. |
| ErofsForeign.DataComplete | peerofs/src/disk.rs:1050-1088 | Whatever is read for an inode of any image is the whole of its data: as many bytes as its size, whole blocks where its block number says and the rest after the inode. |
| ErofsForeign.StepInDirectory | peerofs/src/disk.rs:1341-1350 | One component of a lookup in any directory, inline or not and in an inode of either form, goes to the inode of the first entry of that name. |
| ErofsReadBack.Assemble | peerofs/src/build.rs:1088-1137 | What the four walks establish separately makes every directory and leaf of the tree readable. |
| ErofsFiles.InsertFiles | peerofs/src/build.rs:553-562 | Inserting a leaf keeps tree and file map in agreement, a file hiding everything below its path, and nothing changing on failure. |
| ErofsFiles.FilesKept | peerofs/src/build.rs:1088-1137 | Writing outside the data blocks leaves every file's bytes as they were. |
| ErofsReader.DirentsIterator.ResetCount | peerofs/src/disk.rs:717-739 | The cursor changed in place, refilled from the tail when the block part is used up, is the cursor function's result, with the same errors; `DirentRoundTrip` says what that reads. |
| ErofsReader.DirentsIterator.NextImpl | peerofs/src/disk.rs:741-777 | The entry returned and the cursor left behind are those of the cursor function, with the same errors. |
| ErofsReader.DirentsIterator.Next | peerofs/src/disk.rs:787-797 | The iterator ends exactly at the last entry of the last block. |
| ErofsReader.BeforeZero | peerofs/src/disk.rs:765-769 | The name is the longest part of the slice without a zero byte. |
| ErofsReader.FindNamed | peerofs/src/disk.rs:1343-1349 | The loop over the iterator finds what the search function finds, with the same errors. |
| ErofsReader.LookupPath | peerofs/src/disk.rs:1339-1353 | The loops over components and entries give the answer of the lookup function, for every image and every list of names; `LookupResolves` and `StepInDirectory` say what that is. |
| ErofsCompressed.ClusterLen | peerofs/src/disk.rs:1213-1257 | The next head lies further on, and the length is the difference of the two logical addresses, or up to the file size when no head follows; it fails exactly if no entry follows, the next head lies beyond the table's end, or addresses go back. |
| ErofsCompressed.ReadCompressed | peerofs/src/disk.rs:1197-1336 | The walk ends on every table, with the result or the error of the recursive walk over the heads; each piece stands at its own head's logical address, heads rising; on success the total reaches from the first address to the end marker's or the file size. |
| ErofsCompressed.ReadWhole | peerofs/src/disk.rs:1197-1336 | On a table that starts at address 0 and has any end marker at the file size, a successful read has exactly the file's size. |
| ErofsCompressed.CompressedRoundTrip | peerofs/src/disk.rs:1197-1336 | For any compressor that the decompressor undoes: a table that lists chunks stored in the image, compressed to a block or plain, at logical addresses that follow from their lengths, is walked to the chunks joined. |
| ErofsCompressed.ReadChunks | peerofs/src/disk.rs:1197-1336 | Reading a file stored so succeeds and writes exactly its chunks, one after the other. |
| ErofsCompressed.TwoHeads | peerofs/src/disk.rs:1197-1336 | Such a table exists, with a compressed chunk and a plain one. |
| Deletions.Join | peimage/src/squash.rs:462-485 | The combined state of a key deletes exactly what one of the two states deletes. |
| Deletions.InsertsJoin | peimage/src/squash.rs:462-485 | After any run of inserts the map denotes what it did before together with what each insert denotes. |
| Deletions.InsertOrder | peimage/src/squash.rs:536-544 | The map after inserting does not depend on the order of the inserts. |
| Deletions.LookupExact | peimage/src/squash.rs:500-534 | A path is reported if and only if it is itself stored as deleted, or a directory above it deletes it with no key stored between the two in byte order. |
| Deletions.LookupSound | peimage/src/squash.rs:500-534 | No path is reported that no stored entry deletes. |
| Deletions.ReasonExact | peimage/src/squash.rs:500-534 | The reason given is whiteout or shadowed as the path itself is stored, else whiteout directory or opaque as the nearest key, a directory above, is stored. |
| OrderedLookup.LookupExact | peimage/src/squash.rs:500-534 | For any order of the paths that puts a directory before what is below it: the lookup reports exactly a stored path itself, or a deleting directory above it with no key stored between. |
| OrderedLookup.ReasonExact | peimage/src/squash.rs:523-534 | The same reasons for any order of the paths that puts a directory before what is below it. |
| OrderedLookup.DeepestExists | peimage/src/squash.rs:500-534 | A path deleted from above has a deepest deleting directory. |
| OrderedLookup.MissedExactly | peimage/src/squash.rs:512-534 | A deletion from above is missed exactly when a key is stored after the deepest deleting directory, up to the path. |
| Deletions.SiblingHides | peimage/src/squash.rs:512-534 | In byte order a stored sibling whose name goes on with a byte before the slash makes the whiteout of a directory miss everything below it, for all names. |
| Deletions.ComponentLookupExact | peimage/src/squash.rs:586-609 | The index that compares paths by components reports exactly the path itself or a deleting directory with no key between the two in component order. |
| Deletions.PathContiguous | peimage/src/squash.rs:586-609 | In component order everything between a directory and a path below it is below the directory. |
| Deletions.ComponentMissedExactly | peimage/src/squash.rs:586-609 | In that index a deletion from above is missed exactly when a key is stored below the deepest deleting directory, up to the path. |
| Deletions.SeenShadows | peimage/src/squash.rs:497-509 | A path seen once shadows itself exactly if it does not end in a slash. |
| Deletions.DeletionIndex.Add | peimage/src/squash.rs:462-485 | The table of state changes is the join of the states. |
| Deletions.DeletionIndex.EndOfLayer | peimage/src/squash.rs:536-544 | The queues are emptied into the map, whiteouts first. |
| RawPaths.FileNamePlace | peimage/src/squash.rs:628-634 | File name and parent, as the standard library cuts them from the raw bytes, name the last component and the place above it, for every path. |
| RawPaths.PushedPlace | peimage/src/squash.rs:645-648 | The path with another file name names that name in the parent's place; `WithNameInDir` gives its bytes. |
| RawPaths.WithNameInDir | peimage/src/squash.rs:645-648 | Another file name in place of the last one, byte for byte: the same directory, one slash, and the name; at the top the name alone. |
| RawPaths.JoinedFolder | peimage/src/squash.rs:645-648 | Names joined by single slashes are their own directory form and name exactly the place of these names. |
| Squash.MarkersRecognized | peimage/src/squash.rs:622-651 | Every path, however it is written, is taken for exactly the marker that its place says. |
| SquashNormal.MarkerKeys | peimage/src/squash.rs:622-651 | The key stored for a whiteout is the path of the hidden name, byte for byte, and for an opaque marker its directory. |
| Squash.SquashLayer | peimage/src/squash.rs:293-373 | Index, emitted entries and counters after the loop over a layer are those of the specification, the bottom layer storing nothing. |
| Squash.SquashAll | peimage/src/squash.rs:375-434 | The reverse loop over the layers emits and counts what the specification says; `SquashIffClear`, `WhiteoutSquashes`, `OpaqueSquashes` and `CountersAre` say what that is. |
| SquashTree.BottomUpIsVisible | peimage/src/squash.rs:375-434 | Applying any layers from the bottom up gives each place the entry that nothing put after it removes or replaces. |
| SquashIndex.IndexIs | peimage/src/squash.rs:308-372 | At every entry of every layer the index denotes exactly what was emitted above and what the layers above hide. |
| SquashMeaning.LostOnlyIf | peimage/src/squash.rs:308-372 | In any layers a visible entry is dropped only if its own layer emitted the same path before, or its path names an opaque directory in a roundabout way. |
| SquashMeaning.VisibleIsEmitted | peimage/src/squash.rs:308-372 | With one entry for a place in each layer no visible entry is dropped; markers of its own layer do not touch it. |
| SquashMeaning.DroppedIfSeen | peimage/src/squash.rs:500-509 | An entry that no marker above removes is dropped exactly if the bytes of its path, without a trailing slash, were emitted before. |
| SquashMeaning.ClearIfCoveredFound | peimage/src/squash.rs:375-434 | Tidy layers with one entry for a place are clear as soon as the condition finds every covered entry. |
| SquashMeaning.NothingLost | peimage/src/squash.rs:375-434 | Every entry of the tree applied from the bottom up is emitted. |
| SquashMeaning.SquashIffClear | peimage/src/squash.rs:375-434 | For all layers, the emitted entries are those of the tree applied from the bottom up if and only if the layers are clear. |
| SquashNormal.WhiteoutDrops | peimage/src/squash.rs:519-529 | In any layers, an entry in normal form that a whiteout above names is dropped, and so is what is below it unless a stored key comes between in byte order. |
| SquashNormal.OpaqueDrops | peimage/src/squash.rs:530-532 | In any layers, what is below an opaque directory is dropped unless a stored key comes between in byte order. |
| SquashNormal.WhiteoutSquashes | peimage/src/squash.rs:375-434 | A whiteout of any name over any proper layer is clear: exactly the name and what is below it is dropped, and what comes out is what applying the layers gives. |
| SquashNormal.OpaqueSquashes | peimage/src/squash.rs:375-434 | An opaque marker in any directory but the root over any proper layer is clear: exactly what is below the directory is dropped. |
| SquashMeaning.OutIs | peimage/src/squash.rs:308-372 | What reaches the callback is the list of the emitted entries, in the order of the pass. |
| SquashMeaning.HandedOnce | peimage/src/squash.rs:308-372 | No entry is emitted twice. |
| SquashMeaning.EmittedOnce | peimage/src/squash.rs:362-365 | A path without a trailing slash is emitted at one place only, repeats inside the bottom layer apart. |
| SquashMeaning.ClearOutDistinct | peimage/src/squash.rs:362-365 | From clear layers no place comes out twice. |
| SquashMeaning.AllAccounted | peimage/src/squash.rs:340-360 | Every entry that is not a marker is either emitted or counted under one reason. |
| SquashStats.ReasonIs | peimage/src/squash.rs:340-357 | At every entry each of the four reasons is given exactly when the layers above call for it: a whiteout or an emitted path at the entry itself, or a whiteout or opaque marker as the nearest stored path above it. |
| SquashStats.CountersAre | peimage/src/squash.rs:340-357 | Each counter of a whole run is the number of entries dropped for its reason. |
| SquashFamilies.OpaqueMissed | peimage/src/squash.rs:512-515 | In an opaque directory in which the upper layer also has an entry, every lower entry that sorts after it is emitted although it is removed. |
| SquashFamilies.RootOpaqueMissed | peimage/src/squash.rs:451-459 | An opaque marker in the root directory removes every lower entry, but any entry at the top is emitted. |
| SquashFamilies.FileOverMissed | peimage/src/squash.rs:524-533 | A file that takes the place of a directory leaves the directory's lower entries to be emitted. |
| SquashFamilies.SlashRepeated | peimage/src/squash.rs:497-509 | A directory written with its slash in two layers is emitted twice. |
| Paths.PushPlain | pearchive/src/lib.rs:467-471 | A plain name is one component, and popping undoes pushing it. |
| RawPaths.PushedComponents | pearchive/src/lib.rs:467-471 | Pushing any name onto a path's components is what pushing it onto the path's bytes gives, an absolute name replacing the path. |
| Archive.NameRoundTrip | pearchive/src/lib.rs:305-322 | A written name is read back if and only if it has 1 to 255 bytes and no zero byte after its first. |
| Archive.MessageRoundTrip | pearchive/src/lib.rs:178-220 | A readable message comes back from its encoding, whatever follows it. |
| Archive.ReadMeansEncoded | pearchive/src/lib.rs:295-322 | Bytes that read as a message are its encoding followed by the rest. |
| Archive.Packer.File | pearchive/src/lib.rs:179-193 | A file message is appended if and only if its size fits 32 bits. |
| Archive.Packer.Dir | pearchive/src/lib.rs:195-208 | A directory message is appended and the depth raised, unless the depth is over the limit. |
| Archive.Packer.Leave | pearchive/src/lib.rs:210-219 | A pop message is appended and the depth lowered, unless nothing was entered. |
| Archive.Packer.PackForest | pearchive/src/lib.rs:344-372 | The forest's messages are appended in order, if and only if sizes fit and directories nest within the limit. |
| Unpack.ParseEncoded | pearchive/src/lib.rs:453-496 | The messages of an encoding are read back, all of them. |
| Unpack.Unambiguous | pearchive/src/lib.rs:27-33 | Different lists of readable messages have different encodings. |
| Unpack.UnpackVisitor | pearchive/src/lib.rs:453-496 | The loop shows the visitor exactly the files of the specification, or fails with its error. |
| Unpack.VisitIs | pearchive/src/lib.rs:453-496 | An archive is accepted exactly when it reads to its end and its messages balance, and then shows the messages' files in order. |
| Unpack.AcceptsBalanced | pearchive/src/lib.rs:453-496 | The visiting decoder accepts exactly the encodings of balanced lists of readable messages. |
| Unpack.ForestRoundTrip | pearchive/src/lib.rs:178-220 | A packed forest of plain names unpacks to its files in order. |
| UnpackDir.Unpacker.Run | pearchive/src/lib.rs:399-450 | The loop with its stack and its fast path for empty directories leaves the file system of the specification, or fails with its error. |
| UnpackDir.UnpackDecides | pearchive/src/lib.rs:399-450 | For plain names and any starting state: accepted exactly when the messages can be carried out one by one and balance or stop right after a top-level directory, and then that is the file system left. |
| UnpackDir.ReplayMade | pearchive/src/lib.rs:399-450 | Messages whose paths are new and named once can be carried out, and make exactly those files and directories. |
| UnpackDir.ReplayShown | pearchive/src/lib.rs:399-496 | Files end up at exactly the paths a visitor is shown, repeated ones included. |
| UnpackDir.ReplayContents | pearchive/src/lib.rs:399-450 | Contents at every path: what was there and everything written to it laid over in order, every byte from the last write that reaches it. |
| UnpackDir.LastThenLonger | pearchive/src/lib.rs:399-450 | So a file holds the last bytes written whole, and after them what was longer before. |
| UnpackDir.DecodersAgree | pearchive/src/lib.rs:399-496 | From an empty directory both decoders accept the same archives of plain names, that exception and paths taken twice apart; they see files at the same paths, and the same bytes if no path is repeated. |
| UnpackDir.EndsInDirLast | pearchive/src/lib.rs:418-446 | The exception needs a directory message at the very end, and such messages do not balance. |
| BlobStore.DiskRoundTrip | peoci/src/blobcache.rs:48-61 | Directory and file name of a key's path make the key again. |
| BlobStore.PathsDiffer | peoci/src/blobcache.rs:37-56 | Different valid keys have different paths. |
| BlobStore.DigestEq | peoci/src/ocidist.rs:786-807 | The nibble comparison is equality with the lower hex form of the digest. |
| BlobStore.ReceiveChunks | peoci/src/ocidist.rs:456-461 | Length, hashed bytes and written bytes stay in step over the chunks. |
| BlobStore.FetchBlob | peoci/src/ocidist.rs:426-474 | Success is reported exactly for a complete body of the described size and digest, and then that is what was written. |
| BlobStore.StepKeeps | peoci/src/ocidist_cache.rs:386-440 | Every step, of whichever fetch, eviction or restart, keeps the invariant. |
| BlobStore.AlwaysSafe | peoci/src/ocidist_cache.rs:601-625 | After any interleaving of steps, digest files hold their digest, cached digests have their file, and descriptors have the right bytes and size. |
| BlobStore.KeepsRename | peoci/src/blobcache.rs:94-104 | Renaming, also when the temporary file was evicted meanwhile, keeps the invariant. |
| BlobStore.KeepsRestarted | peoci/src/ocidist_cache.rs:512-524 | Loading everything on disk, left-over temporary files included, keeps the invariant. |
| BlobStore.KeepsEvicted | peoci/src/blobcache.rs:187-199 | Evicting any key, a temporary file's among them, keeps the invariant; `NoOrphans` and `DiskIsOwned` say that its file is gone. |
| BlobStore.HandleFixed | peoci/src/ocidist_cache.rs:386-440 | No step changes the bytes behind a descriptor handed out for a digest. |
| BlobOwners.OrphanStep | peoci/src/ocidist_cache.rs:386-440 | No step leaves a file without an owner, cached or being fetched, except when nobody waits for a renamed file; a restart gives every file an owner. |
| BlobOwners.NoOrphans | peoci/src/blobcache.rs:187-199 | In every run a file on disk is cached or being fetched, or nobody waited for it since the last restart. |
| BlobOwners.DiskIsOwned | peoci/src/blobcache.rs:187-199 | In a run that fetches digests only, with every fetch waited for and no restart, the files on disk are exactly those of the cached keys and of the fetches under way. |
| BlobOwners.RestartLoads | peoci/src/ocidist_cache.rs:512-524 | After a restart exactly the files on disk are cached, with their sizes, and digests cached before keep theirs. |
| BlobOwners.HitIff | peoci/src/ocidist_cache.rs:418-439 | A cached digest is opened for every caller that asks for its size, and for no other. |
| BlobOwners.FetchSucceeds | peoci/src/ocidist_cache.rs:601-625 | From every state a fetch of a digest that is neither cached nor being fetched, given its bytes in any chunks, ends with these bytes under its name, cached, and a descriptor handed on. |
| BlobOwners.RenameOutcome | peoci/src/blobcache.rs:153-158 | A verified fetch can always go on: its file moves to the key's name and holds the digest's bytes, or, if the temporary file was evicted meanwhile, the fetch ends and no name changes. |
| BlobOwners.FetchedOnce | peoci/src/ocidist_cache.rs:386-405 | A digest is fetched exactly when it is neither cached nor being fetched. |
| BlobOwners.RetrySucceeds | peoci/src/ocidist_cache.rs:601-625 | After a failed fetch another one with the right bytes succeeds. |
| BlobOwners.RefetchSucceeds | peoci/src/blobcache.rs:187-199 | What is cached can be evicted, and a fetch with the right bytes then succeeds again. |
| Admission.StepKeeps | peserver/src/lb.rs:232-266 | Every step keeps permits conserved, each job in one place, and replies in agreement with where a request stands. |
| Admission.AlwaysInvariant | peserver/src/lb.rs:232-266 | All of this holds after any interleaving of steps, clients going away included. |
| Admission.NeverTooMany | peserver/src/worker.rs:458 | Requests in flight never exceed two for each thread, nor all requests the balancer's limit. |
| Admission.FullOnlyIfAbandoned | peserver/src/worker.rs:260-266 | A request finds the queue full only when a job is in it whose client has gone away. |
| Admission.QueueNeverFull | peserver/src/worker.rs:260-266 | With no client going away a request never finds the queue full. |
| Admission.OneReplyEach | perunner/src/worker.rs:277-290 | With no client going away a submitted job that has left the worker has exactly one reply. |
| Admission.ThreadsFinish | perunner/src/worker.rs:277-290 | However the threads are scheduled they come to an end within a bound, and then every waiting client's job has exactly one reply, as long as abandoned jobs leave a thread. |
| Admission.AllAnswered | perunner/src/worker.rs:277-290 | With no client going away, whenever the threads have nothing left to do every job ever submitted has exactly one reply. |
| Admission.LossesStep | perunner/src/worker.rs:281-288 | Ended threads and abandoned jobs together grow by one exactly when a client goes away whose job is at the worker, and never otherwise. |
| Admission.EndedAtMostAbandoned | perunner/src/worker.rs:281-288 | In every run no more threads have ended than clients have gone away. |
| Admission.NoMoreReplies | perunner/src/worker.rs:281-288 | Once all threads have ended nothing that happens later adds a reply. |
| Admission.PoolOutlives | perunner/src/worker.rs:281-288 | The pool stops for good only after at least as many clients have gone away as it has threads. |
| Admission.AbandonedMakesFull | peserver/src/worker.rs:260-266 | With the queue at its limit, one client going away makes the next admitted request find it full. |
| Admission.FullIsReached | peserver/src/worker.rs:260-266 | Some run from the start in which a single client goes away ends with an admitted request that finds the queue full, whatever the number of threads. |
| Admission.LearnLimit | peserver/src/lb.rs:126-143 | However often the limit is asked for, permits are added once at most, from the first answer. |
| AdmissionServes.Drains | peserver/src/lb.rs:232-266 | From every state in which abandoned jobs leave a thread, everybody who waits can be brought to an end with no client going away; then all permits are free and every submitted job has exactly one reply. |
| AdmissionServes.Serves | peserver/src/worker.rs:252-275 | A new request that finds permits and room in the queue can be served with one reply, all permits free in the end. |
| AdmissionServes.FirstInFirstOut | perunner/src/worker.rs:277-290 | Whatever happens, jobs leave the queue in the order they came in. |
| CpuSets.Partition | perunner/src/worker.rs:187-214 | The sets exist exactly when offset and size are even and all cores needed are allowed; they have the size asked for, lie inside the allowed set, and share neither a core nor an even/odd pair. |

## Left out

- ErofsTree.EditPath: the descent by mutable references is a function from the old tree to the new one; the tree is owned by the builder alone, so nothing else could see it change.
- Link counts of hard links are claimed as the source has them: a link always counts two, its target one more for each link.
- ErofsBuild.Builder.IntoInner: for a tree that is not buildable (a name longer than 4084 bytes or with a zero byte, or a record of one whole block at a block boundary) nothing is claimed of the image; what goes wrong is stated at `PrepareDirentData`, `LastNameCut` and `WriteInode`.
- ErofsAttributes.NodeAttributes: that attributes of a list which is not aligned are read as something else is claimed of their stored form, not of the keys put together again from it.
- ErofsBuild.Builder.AddSymlink: the target is shorter than 2^64 bytes, as every byte string in memory is.
- Debug assertions, statistics, `max_file_size` as a bound on the whole image (the source never advances the total), and write errors of the builder's output.
- Checksums, shared attributes, the long-prefix table, chunk-based layouts and the compact form of the compression table, images with a block size of 2^64 or more, and wrap-around of 64-bit offsets in the reader.
- Decoding of LZ4 blocks: the decompressor is a parameter; where lengths are claimed it returns as many bytes as asked for, and where contents are claimed it undoes the compressor.
- ErofsLimits.WithinLimits: the bound on inode numbers is on the end of the inode stream, so a last record that straddles it is not claimed to succeed.
- SquashMeaning.NothingLost: asks that no layer has two entries for one place, which the specification of layers forbids, and that no path ends in a second slash or in "/."; what happens otherwise is `LostOnlyIf`.
- ".." in layer paths is a component like any other, as in the standard library.
- The run of the squasher uses the index that compares bytes, as the source does; of the index that compares components only inserting and the lookup are modelled.
- Errors of the entry callback, tar parsing and decompression while squashing.
- Visitors that stop early in `unpack_visitor`, packing from a live directory tree that changes, and chroot and namespace set-up.
- Names that are not plain when unpacking into a directory: the kernel's answer is a parameter, and the agreement of the decoders is claimed for plain names.
- Keys of other digest algorithms than SHA-256 in the blob store: they are never verified, so nothing is claimed of their bytes.
- Single-flight insertion and per-key atomic eviction of the cache are built into the steps; its size limit is not modelled, any cached key may be evicted at any time.
- The manifest and reference caches, registry requests, authentication and rate limits.
- Which worker a request goes to (the source always takes the first), timeouts as durations, and what a job computes.
- VM launch, guest start-up, the frontend and configuration.
