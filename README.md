# Tamper protection: a verified model of the folder digest

The tamper-protection tool computes a salted SHA-256 digest of a directory
tree and prints it as 64 lowercase hexadecimal characters. This project
models the core of that tool in Dafny and proves properties of the model.

The model covers:

- the sorted folder digest of `src/main.rs`;
- the legacy folder digest of `src/hash_calc.rs`;
- the 64 KiB chunked file hasher that both files define with the same code;
- the command-line classifier `args_handler` and the coloured `print` of
  `src/cli_handler.rs`.

## How the model is built

- **SHA-256** is an uninterpreted parameter `sha: Sha256`, a total function
  from byte strings to 32-byte digests. Every theorem holds for any such
  function.
- **The incremental hasher** is the class `Hashing.Hasher`. Its whole state
  is `fed`, the byte stream received so far. `Update` appends to it and
  `Finalize` returns `sha(fed)`.
- **The file system** is the tree datatype `FileSystem.Node`:
  - regular files;
  - directories, whose children are in the order the operating system
    lists them;
  - symbolic links, holding the regular file they resolve to, if any;
  - special files;
  - `Unreadable` entries, which the walker reports as errors;
  - `Vanished` entries, which are listed but whose metadata query fails.
- **A file's read behaviour** is a schedule of `ReadStep`s. A read delivers
  between 1 and 65536 bytes while bytes remain, delivers 0 at end of file,
  or fails. `FileSystem.FileReader` is the open handle; its `Read` fills the
  front of a real `array<byte>` buffer.
- **The walk** is `WalkDir.Walk`, a depth-first pre-order walk of the tree.
  `sort_by_file_name` becomes `WalkDir.SortTree`, which sorts every
  directory's children by byte-wise name order before the walk.
- **What a run feeds into its hasher** is a `Streams.Feed`: the bytes fed,
  plus the I/O error that stopped the run, if one did. Each digest variant
  has specification functions `EntryFeed`, `WalkFeed` and `FolderFeed`.
  They are proved to equal what the imperative loops `FeedEntry`, `FeedWalk`
  and `CalculateFolderHashWithSalt` actually feed. The properties of the
  source are then proved as lemmas about those functions.
- **The process-wide colour flag** of `src/global.rs` is passed in and
  returned explicitly. Its initial value is `true`.

`calculate_file_hash` is identical in `src/main.rs` and `src/hash_calc.rs`,
so it is modelled once, as `ContentHasher.CalculateFileHash`. The
`src/hash_calc.rs` copy is at `src/hash_calc.rs:15-29`.

### Behaviour worth knowing

- **Order.** The sorted digest sorts siblings by file name while walking,
  not the entries by whole relative path. The two orders differ:
  `FolderHash.SiblingOrderIsNotPathOrder` shows a folder holding file `a-b`
  and directory `a` with file `x`. The walk visits `a/x` first, although the
  text `a-b` sorts before `a/x`.
- **Failures.** The sorted digest skips only walk errors. A failed metadata
  query, or a file that cannot be opened or read, aborts it with that error.
  The legacy digest drops walk errors and entries whose metadata cannot be
  read, and aborts only when a file cannot be opened or read.
- **Validation.** No core file compares a recomputed digest with an
  expected one: `args_handler` only returns the `Validate` mode.

## Model

| member | source | states |
|---|---|---|
| Hashing.Hasher.constructor | src/main.rs:23 | A new hasher has been fed nothing. |
| Hashing.Hasher.Update | src/main.rs:25 | `update` appends the data to the stream fed so far. |
| Hashing.Hasher.Finalize | src/main.rs:49 | `finalize` is SHA-256 of everything fed. |
| Hashing.HexEncode | src/main.rs:50 | The hex text is twice as long as the bytes and uses only lowercase hex digits. |
| Hashing.HexRoundTrip | src/main.rs:50 | Decoding the hex text of any byte string gives the bytes back, so `hex::encode` loses nothing. |
| Hashing.HexEncodeDecode | src/main.rs:50 | Every text that decodes is the encoding of what it decodes to, so the encoding is onto the well-formed texts. |
| Hashing.DigestTextShape | src/hash_calc.rs:65 | The text of a 32-byte digest is exactly 64 lowercase hexadecimal characters. |
| FileSystem.Grant | src/main.rs:60 | A read delivers at most the bytes that remain and at most the buffer size, and delivers zero exactly at end of file. |
| FileSystem.NoFailureReadsToEnd | src/main.rs:59-65 | When no read fails, repeated reads reach the zero-length read that ends the loop. |
| FileSystem.FileReader.Open | src/main.rs:55 | An opened file is read from its first byte, with its own read schedule. |
| FileSystem.FileReader.Read | src/main.rs:60 | `read` either fails, leaving the position and the buffer unchanged, or copies the next `n` bytes of the file into the front of the buffer and advances by `n`. |
| ContentHasher.ReadableFileDigest | src/main.rs:54-68 | A file that opens and whose reads never fail hashes to SHA-256 of its bytes. |
| ContentHasher.CalculateFileHash | src/main.rs:54-68 | The read loop returns the open error, the read error, or SHA-256 of the file's bytes. On success the chunks it fed concatenate to exactly the file's bytes, and each chunk is non-empty and at most 65536 bytes. |
| ContentHasher.FileDigest | src/main.rs:54-68 | What `calculate_file_hash` returns: an open failure when the path no longer reaches a regular file, otherwise an open or a read failure, or SHA-256 of exactly the file's bytes. |
| Streams.Finish | src/main.rs:49-50 | A run returns an error exactly when it aborted, and then that run's error; one that did not abort returns 64 lowercase hexadecimal characters. |
| WalkDir.NameLeTotal | src/main.rs:28 | Any two file names are comparable in the sort order. |
| WalkDir.NameLeTransitive | src/main.rs:28 | The sort order on file names is transitive. |
| WalkDir.NameLeAntisymmetric | src/main.rs:28 | Two names that sort before each other are equal. |
| WalkDir.Insert | src/main.rs:28 | Inserting a node adds exactly that node to the siblings. |
| WalkDir.InsertSorted | src/main.rs:28 | Inserting into name-sorted siblings keeps them sorted. |
| WalkDir.SortByName | src/main.rs:28 | Sorting siblings gives a permutation of them in name order. |
| WalkDir.SortTree | src/main.rs:28 | Sorting keeps a node's name and kind, and changes only directories. |
| WalkDir.SortEach | src/main.rs:28 | Every child is sorted in place, and the number of children is kept. |
| WalkDir.EntryOf | src/main.rs:34-35 | The entry reported for a node at a path: the metadata is the node's own, so a link reports itself and not its target, and only a vanished entry has none. Only a file or a link to a file resolves to file contents, which is what `is_file()` and `File::open` at src/hash_calc.rs:55-57 see. |
| WalkDir.Walk | src/main.rs:28 | The walk reports the node itself first, as an error for an unreadable entry, and every path it reports extends the starting path. |
| WalkDir.WalkAll | src/hash_calc.rs:53 | Every path in the walk of a directory's children extends the directory's path. |
| WalkDir.SortedWalk | src/main.rs:28 | `WalkDir::new(folder_path).sort_by_file_name()`: the walk of the sorted tree. It starts with the root's own item, as the unsorted walk does, and every path extends the folder path. |
| WalkDir.SortTreeSorted | src/main.rs:28 | After `sort_by_file_name` every directory of the tree lists its children in name order. |
| WalkDir.SortByNameOfSorted | src/main.rs:28 | Sorting siblings that are already in name order changes nothing. |
| WalkDir.SortTreeOfSorted | src/main.rs:28 | Sorting a tree whose directories are already in name order changes nothing. |
| WalkDir.SortTreeIdempotent | src/main.rs:28 | Sorting twice is the same as sorting once. |
| WalkDir.SortedWalkOfOrderedListing | src/main.rs:28 | When the operating system already lists every directory in name order, the sorted walk equals the unsorted one. |
| WalkDir.SortedPermutationsEqual | src/main.rs:28 | Two name-sorted orderings of the same siblings, all with different names, are equal. |
| WalkDir.ListingOrderIrrelevant | src/main.rs:28 | Two listings of a directory with distinct entry names, whose sorted children agree up to order, give the same sorted directory. |
| WalkDir.SortTreeUpToListing | src/main.rs:28 | Two trees that differ only in the order in which their directories, at any depth, list their entries have the same sorted form. |
| WalkDir.SortEachUpToListing | src/main.rs:28 | Siblings matched one to one, up to listing order, sort to the same children up to order. |
| WalkDir.NestedSwapIsSameUpToListing | src/main.rs:28 | Swapping two entries inside a subdirectory is a change of listing order only. |
| FolderHash.StripPrefix | src/main.rs:38 | `strip_prefix` succeeds exactly when the path starts with the folder path, and the folder path followed by the result is the path. |
| FolderHash.PathBytes | src/main.rs:39 | `to_string_lossy().as_bytes()` of a relative path: the empty path gives no bytes, otherwise the text starts with the first component, followed by `/` when more components come. |
| FolderHash.PathBytesInjective | src/main.rs:39 | Two paths whose components are non-empty and free of `/` give the same text only when they are the same path, so the text identifies the file. |
| FolderHash.RelativeBytes | src/main.rs:38-40 | The path bytes fed for an entry: those of the path after the folder path when it starts with the folder path, and nothing otherwise. |
| FolderHash.EntryFeed | src/main.rs:29-46 | One turn of the loop as a value: only a regular file or a failed metadata query has any effect, and a regular file's bytes start with its relative path and the salt. |
| FolderHash.WalkFeed | src/main.rs:28-47 | The whole loop as a value: in a run that finishes, no item aborted. |
| FolderHash.FolderFeed | src/main.rs:23-47 | The whole run as a value: the stream starts with the salt. |
| FolderHash.FeedEntry | src/main.rs:29-46 | One turn of the loop feeds exactly `EntryFeed` of the entry and reports its abort. |
| FolderHash.FeedWalk | src/main.rs:28-47 | The loop feeds exactly `WalkFeed` of the walk and stops with the first error. |
| FolderHash.CalculateFolderHashWithSalt | src/main.rs:22-51 | The hasher receives exactly `FolderFeed` of the tree. The result is that feed's error, or the hex text of SHA-256 of that stream. |
| FolderHash.WalkFeedAppend | src/main.rs:28-47 | Feeding two lists of walk items one after the other is feeding the first and then, unless it aborted, the second. |
| FolderHash.WalkFeedAround | src/main.rs:28-47 | The feed of a walk is the feed before an item, then the item, then the rest, each only if nothing before it aborted. |
| FolderHash.SaltFirst | src/main.rs:23-25 | The stream is the salt, once, followed by what the sorted walk feeds. |
| FolderHash.WalkErrorSkipped | src/main.rs:29-32 | A walk error is skipped: the feed is that of the walk without it. |
| FolderHash.NonRegularIgnored | src/main.rs:35-37 | Directories, symbolic links and other non-regular entries add nothing and never abort, judged by the entry's own metadata. |
| FolderHash.MetadataFailureAborts | src/main.rs:35 | A failed metadata query ends the run with that error, right after what came before. |
| FolderHash.RegularFileFeeds | src/main.rs:37-43 | A regular file with content hash `h` feeds its relative path, the salt and `h`, in that order, between what comes before and what comes after. |
| FolderHash.FileFailureAborts | src/main.rs:41-42 | A regular file that cannot be opened or read ends the run with that error, after its path and the salt were fed. |
| FolderHash.StripFailureFeedsSaltAndHash | src/main.rs:38-43 | When `strip_prefix` fails, the entry still feeds the salt and its content hash. |
| FolderHash.WalkPathsStrip | src/main.rs:38 | In a walk rooted at the folder path, `strip_prefix` never fails, and the bytes fed are those of the path below the folder. |
| FolderHash.NoRegularFilesDigestsSalt | src/main.rs:23-50 | A folder with no regular file and no failing metadata query feeds only the salt, and digests to the hex text of SHA-256 of the salt. |
| FolderHash.EmptyFolderDigestsSalt | src/main.rs:23-50 | An empty folder digests to the hex text of SHA-256 of the salt. |
| FolderHash.DigestIgnoresListingOrder | src/main.rs:28 | Two trees that differ only in the order in which their directories, at any depth, list their entries give the same stream and the same result. |
| FolderHash.SiblingOrderIsNotPathOrder | src/main.rs:28 | In the example, the walk visits `a/x` before `a-b`, although `a-b` sorts before `a/x` as text. |
| HashCalc.WalkNamed | src/hash_calc.rs:55-59 | Every walked entry that resolves to a regular file has a last component, so `file_name().unwrap()` cannot panic, unless the root is itself a file at the empty path. |
| HashCalc.BaseName | src/hash_calc.rs:59 | `file_name()`: the last component, so the path is its parent followed by that name. |
| HashCalc.EntryFeed | src/hash_calc.rs:54-61 | One turn of the legacy loop as a value: only an entry that resolves to a regular file has any effect, and since the file is hashed before its name is fed, an abort feeds nothing. |
| HashCalc.WalkFeed | src/hash_calc.rs:53-62 | The legacy loop as a value: in a run that finishes, no item aborted. |
| HashCalc.FolderFeed | src/hash_calc.rs:47-62 | The legacy run as a value: the stream starts with the salt. |
| HashCalc.FeedEntry | src/hash_calc.rs:54-61 | One turn of the loop feeds exactly the legacy `EntryFeed` of the entry and reports its abort. |
| HashCalc.FeedWalk | src/hash_calc.rs:53-62 | The loop feeds exactly the legacy `WalkFeed` of the walk and stops with the first error. |
| HashCalc.CalculateFolderHashWithSalt | src/hash_calc.rs:46-66 | The hasher receives exactly the legacy `FolderFeed` of the unsorted walk. The result is that feed's error, or the hex text of SHA-256 of that stream. |
| HashCalc.WalkFeedAppend | src/hash_calc.rs:53-62 | Feeding two lists of walk items one after the other is feeding the first and then, unless it aborted, the second. |
| HashCalc.SaltFirst | src/hash_calc.rs:47-50 | The stream is the salt, once, followed by what the walk feeds. |
| HashCalc.WalkErrorDropped | src/hash_calc.rs:53 | A walk error is dropped and never aborts the run. |
| HashCalc.NonFileDropped | src/hash_calc.rs:55 | An entry whose path does not resolve to a regular file feeds nothing and never aborts. This covers directories, special files, vanished entries and links to no file. |
| HashCalc.FileFeedsNameAndHash | src/hash_calc.rs:57-60 | A file, reached directly or through a link, with content hash `h`, feeds its base name and then `h`, with no salt. |
| HashCalc.ReadErrorBeforeName | src/hash_calc.rs:57-60 | A file that cannot be opened or read ends the run with that error before its name enters the stream. |
| HashCalc.BaseNameOnly | src/hash_calc.rs:59 | Two walks that agree, item by item, on what each entry resolves to and on the base names of files feed the same stream, wherever the files sit. |
| HashCalc.NoFilesDigestsSalt | src/hash_calc.rs:47-65 | A folder in which nothing resolves to a regular file feeds only the salt, and digests to the hex text of SHA-256 of the salt. |
| Variants.SymlinkTreatment | src/main.rs:35-37 | A link to a readable file: the sorted digest skips it, while the legacy digest hashes the target under the link's name. |
| Variants.VanishedTreatment | src/main.rs:35 | An entry whose metadata cannot be read: the sorted digest aborts, while the legacy digest goes on. |
| Variants.FlatItemAgrees | src/main.rs:37-43 | With an empty salt, an error, a directory, a special file and a readable file directly inside the folder feed the same bytes under both digests. |
| Variants.VariantsAgreeOnFlatFolders | src/main.rs:28-47 | With an empty salt, a walk of such items feeds the same under both digests. |
| Variants.VariantsAgreeOnSortedFlatFolder | src/main.rs:22-51 | A folder of readable files only, listed in name order and hashed with an empty salt, gets the same stream and result from both digests. |
| Variants.ListingOrderMattersOnlyToLegacy | src/hash_calc.rs:53 | Listing two files the other way round changes the legacy stream, but not the sorted digest's feed. |
| Variants.LegacyPairStream | src/hash_calc.rs:53-62 | For a folder of any two files that hash without failure, the legacy stream is the salt, then the first name and its hash, then the second name and its hash. |
| CliHandler.ColorStaysOnWithoutFlags | src/global.rs:6 | Colour, on at start-up, stays on exactly when the command line does not end with a colour flag. |
| CliHandler.ArgsHandler | src/cli_handler.rs:72-88 | Colour is turned off exactly when the last argument is `no` or `nocolor`, and never turned on. After stripping the trailing flags, 2 arguments with a help word give Help, 3 give GetHash, 4 give Validate, and everything else gives Error. |
| CliHandler.StrippedExists | src/cli_handler.rs:73-75 | When some argument is not a colour flag, stripping trailing flags stops at a non-empty list. |
| CliHandler.StrippedUnique | src/cli_handler.rs:73-75 | That stopping point is unique. |
| CliHandler.TrailingFlagsIgnored | src/cli_handler.rs:73-75 | Appending any number of colour flags leaves the mode unchanged, and turns colour off when there is at least one. |
| CliHandler.ColorCode | src/cli_handler.rs:32-38 | Every colour selects an ANSI escape, starting with `ESC [` and ending with `m`. |
| CliHandler.ColorCodesDistinct | src/cli_handler.rs:32-38 | Default selects the reset sequence, and different colours select different escapes. |
| CliHandler.ColorCodeInvisible | src/cli_handler.rs:32-38 | No colour escape displays anything on a terminal. |
| CliHandler.Print | src/cli_handler.rs:30-45 | The colour escape comes first only when colour mode is on, the text follows it unchanged, and the line always ends with the reset sequence and a newline. |
| CliHandler.PrintShowsText | src/cli_handler.rs:30-45 | Whatever the colour and the colour mode, a terminal displays exactly the text and a newline. |

## Left out

- `src/global.rs`: the `Mutex`-guarded global colour flag is an explicit boolean, passed to `ArgsHandler` and `Print` and returned by `ArgsHandler`; locking is not modelled.
- SHA-256 itself (the `sha2` crate) is an uninterpreted parameter; its compression function is not modelled.
- File-system and `walkdir` I/O are inputs: a tree, and a read schedule per file. The operating system's read sizes and read failures are part of that schedule. `walkdir`'s error details are collapsed into one `WalkError`.
- `to_string_lossy`: file names are taken to be valid UTF-8 and are modelled as their bytes, so replacement characters are not modelled. Paths join components with `/`, as on Unix.
- The sorted order compares file names byte by byte, as `OsStr` does on Unix; other platforms' name encodings are not modelled.
- Output: the per-file `println!` (`src/main.rs:45`), `program_description` and `main` (`src/main.rs:70-115`) are terminal glue; `print` is modelled as the string it writes.
- The help text (`src/cli_handler.rs:47-61`) is a constant string.
- Digest validation: no core file implements it, so no comparison of digests is modelled.
- Files changing while they are hashed: every read sees one fixed content, so concurrent writers are not modelled.
- HashCalc.CalculateFolderHashWithSalt: requires a non-empty folder path only when the root itself resolves to a regular file. The empty path stands for `.`, which is never a file, so this rules out no real input; the `file_name().unwrap()` panic is not modelled.
- CliHandler.ArgsHandler: requires some argument that is not a colour flag, because indexing `args[args.len() - 1]` panics once stripping empties the list; that panic is not modelled.
- CliHandler.PrintShowsText: stated only for text that holds no escape character, since such a character would start an escape of its own.
