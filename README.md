# deflation: a verified model of the folder crawl

The `deflation` library has one entry point, `deflate_folder(folder, output_file)`
in `deflation.h`. It walks the input folder recursively and collects the name of
every entry it finds into a growable list of strings (`FilePathList`). It fails
when the list is empty. Otherwise it prints the names and reports success. The
library does not write a pack file: `output_file` is never used.

This project models that core in Dafny and proves what it does:

- `directories.dfy` (module `Directories`) is the filesystem as the crawl sees
  it. A folder name either cannot be opened (`opendir` yields NULL) or opens to
  a listing. A listing is an ordered sequence of entries. Each entry has the
  bare name `readdir` returns and the node that opening that name yields. The
  listing may include `.` and `..`.
- `file_path_list.dfy` (module `PathList`) is the class `FilePathList`. Its
  fields are `files` (an array, null before first use), `count` and
  `capacity`. The first append allocates two slots. An append that finds the
  list full doubles `capacity` and moves the names into a new array of that
  size. The code as written does not do this (see Findings).
- `crawl.dfy` (module `Crawling`) has `Crawl`, the function that specifies what
  a crawl appends, and its lemmas. It also has the imperative `CrawlFolder`,
  with its `readdir` loop and the recursive call, proved to extend the shared
  list by exactly `Crawl(folder)`.
- `post_order.dfy` (module `PostOrder`) gives an independent description of
  the crawl. An entry path is the sequence of listing positions from the
  crawled folder down to one entry, never passing through `.` or `..`.
  `Before` is post-order on entry paths. The lemmas prove three things:
  - the crawl appends the name at every entry path exactly once, in
    post-order;
  - it appends nothing else;
  - any post-order enumeration of the entry paths yields exactly the crawl's
    output.
- `deflation.dfy` (module `Deflation`) is `deflate_folder`.
- `append_as_written.dfy` (module `AppendAsWritten`) models the bookkeeping of
  `filepathlist_append` as written, in bytes. It holds the lemmas that show
  the two out-of-bounds stores.

The model follows the code in two places where the system is sometimes
described otherwise:
- The crawl appends the bare entry name (`d_name`), not the parent joined with
  the name. The recursion opens that bare name, not a path under the parent.
  The model's tree records, for each entry, what opening that name yields.
- There is no pack encoder, buffered writer, asset loader or record format in
  the code. `deflate_folder` only prints the names it found, so none of these
  is modelled.

## Model

| member | source | states |
|---|---|---|
| PathList.FilePathList.constructor | deflation.h:114 | the zero-initialised list: no array, `count` and `capacity` 0, no names |
| PathList.FilePathList.Append | deflation.h:62-74 | `count` grows by one, `files[old count]` holds the new name, and `Names` becomes the old names followed by the new one, so every earlier entry is unchanged. The first append sets `capacity` to 2. An append on a full list doubles `capacity` into fresh storage. Otherwise the array and `capacity` stay. `count <= capacity == files.Length` holds afterwards |
| Directories.IsDotName | deflation.h:101 | the two `strcmp` tests: true exactly for the names `.` and `..` |
| Crawling.Crawl | deflation.h:85-110 | the names one crawl appends, in order: nothing for a folder that cannot be opened, otherwise what the `readdir` loop appends over the folder's listing |
| Crawling.CrawlEntries | deflation.h:94-107 | the names the `readdir` loop appends over a listing: each entry's contribution in listing order |
| Crawling.EntryOutput | deflation.h:100-106 | what one loop iteration appends: nothing for `.` and `..`, otherwise the crawl of the entry followed by its own name |
| Crawling.CrawlFolder | deflation.h:85-110 | the list after the crawl is the list before it extended by exactly `Crawl(folder)`. It is unchanged when the folder cannot be opened (`Crawl(Unopenable) == []`) |
| Crawling.CrawlEntriesConcat | deflation.h:94-107 | iterating over two consecutive parts of a listing appends what the first part appends, then what the second appends (children in listing order) |
| Crawling.ChildBlock | deflation.h:94-107 | for each real child, the names its crawl appends come immediately before the child's own name. The earlier children's output precedes that block and the later children's output follows it |
| Crawling.DotEntrySkipped | deflation.h:100-103 | a `.` or `..` entry contributes nothing, wherever it stands in the listing |
| Crawling.CrawlHasNoDotNames | deflation.h:100-106 | no name the crawl appends is `.` or `..` |
| Crawling.CrawlEmptyIff | deflation.h:88-106 | the crawl appends nothing if and only if the folder cannot be opened or lists only `.` and `..` |
| Crawling.NestedFileComesFirst | deflation.h:94-107 | a listing of `.`, `..` and `sub`, where opening the bare name `sub` yields a listing of just `a.txt`, crawls to `["a.txt", "sub"]`: `a.txt` comes before `sub`, and `sub` is listed too. Because the code opens `sub` relative to the working directory, this is the crawl of `sub/a.txt` when the crawled folder is the working directory |
| PostOrder.CrawlPathsNamed | deflation.h:100-106 | each appended name is the name at a real entry path, and the paths run in step with the names |
| PostOrder.CrawlPathsComplete | deflation.h:94-107 | every real entry path, at any depth, is among the crawl's paths. Every entry other than `.` and `..`, file or directory, is appended: nothing else is filtered |
| PostOrder.CrawlPathsSorted | deflation.h:94-107 | the crawl's paths are in post-order |
| PostOrder.CrawlEnumeratesEntries | deflation.h:85-110 | the crawl appends the name at every entry path exactly once (no path repeats), in post-order, and nothing else |
| PostOrder.CrawlIsPostOrder | deflation.h:85-110 | list every entry path once, in post-order: the names at those paths are exactly the crawl's output |
| PostOrder.SortedUnique | deflation.h:94-107 | two post-order sequences holding the same paths are equal, so post-order determines the crawl's output |
| PostOrder.BeforeTransitive | deflation.h:94-107 | post-order on entry paths is transitive |
| PostOrder.BeforeTotal | deflation.h:94-107 | any two distinct entry paths are ordered one way or the other |
| Deflation.DeflateFolder | deflation.h:112-128 | the result is `Failure` (0) if and only if the crawl found nothing, which happens exactly when the folder cannot be opened or lists only `.` and `..`. Otherwise the result is `Success` (1). On success `printed` holds the names handed to `INFO`: the crawl's names, in order. On failure it is empty. `output_file` is not touched |
| Deflation.PrintfWithoutArguments | deflation.h:32-34 | what `printf(format)` with no further arguments writes: `%%` writes one `%`. Any other `%` needs a missing argument, which is undefined behaviour |
| Deflation.NameWithoutPercentPrintedVerbatim | deflation.h:124 | a name without `%`, used as the format as `INFO(file)` does, is printed as it stands |
| Deflation.PercentNameNotVerbatim | deflation.h:124 | conversely, a name containing `%` is never printed as it stands: a `%%` shrinks to one `%`, and any other `%` makes the call undefined. With the previous row: a name is printed verbatim if and only if it holds no `%` |
| Deflation.PrintedShorter | deflation.h:32-34 | what `printf(format)` prints without arguments is never longer than the format |
| Deflation.PercentNameMisprinted | deflation.h:124 | a file named `a%%b` is printed as `a%b`, and a file named `%s` makes the call undefined |
| AppendAsWritten.Zeroed | deflation.h:114 | the struct `FilePathList list = { 0 };` reduced to bookkeeping: no block, 0 bytes, `count` and `capacity` 0 |
| AppendAsWritten.StoreInBounds | deflation.h:73 | whether the store `files[count++]` after the two `if` statements writes its 8-byte pointer slot at index `count` wholly inside the allocated block |
| AppendAsWritten.Prepare | deflation.h:64-71 | the two `if` statements before the store. On first use, set `capacity` to 2 and allocate `2 * slotBytes` bytes. When full, double `capacity` without touching the block |
| AppendAsWritten.Append | deflation.h:62-74 | one call of `filepathlist_append` as written, bookkeeping only: `Prepare`, then `count` grows by one |
| AppendAsWritten.AppendTimes | deflation.h:62-74 | the struct after `k` appends to a zeroed list |
| AppendAsWritten.FirstStoreOverflows | deflation.h:64-73 | as written, the first append stores an 8-byte pointer into a 2-byte block |
| AppendAsWritten.BlockNeverGrows | deflation.h:62-74 | as written, after `k >= 1` appends `count == k <= capacity`, yet the block keeps the size of its first allocation |
| AppendAsWritten.LaterStoresOverflow | deflation.h:69-73 | as written, even with malloc given whole pointer slots, every append after the second stores past the block |

## Findings

| source | as written | input that shows it | evidently intended | confidence | as-written member | corrected member |
|---|---|---|---|---|---|---|
| deflation.h:66 | `malloc(list->capacity)` allocates `capacity` bytes, i.e. 2 bytes for 2 pointer slots | the first append to a zeroed list stores an 8-byte pointer at offset 0 of a 2-byte block | allocate `capacity` pointer slots | not executed; high | AppendAsWritten.FirstStoreOverflows | PathList.FilePathList.Append |
| deflation.h:124 | `INFO(file)` makes each name printf's format string | a file named `a%%b` is printed as `a%b`; one named `%s` is undefined behaviour | print the name as it stands, as `printf("%s", file)` does | not executed; high | Deflation.PercentNameMisprinted | Deflation.DeflateFolder |
| deflation.h:69-71 | `capacity` is doubled but `files` is never reallocated | the third append (count == capacity == 2) stores at slot 2 of a block of two pointer slots, with the :66 allocation fixed | reallocate `files` to the doubled capacity, keeping the stored names | not executed; high | AppendAsWritten.LaterStoresOverflow | PathList.FilePathList.Append |

## Left out

- `opendir`, `readdir` and `closedir` are abstracted as a given finite tree with ordered listings. The real listing order depends on the platform, and the model takes it as given. The real recursion opens the bare entry name relative to the working directory, and the tree records whatever that yields.
- Cycles and unbounded depth are not modelled, because the tree is finite. The code can loop because it reopens bare names against the working directory, and no symlink is needed for that. If `./d` lists an entry named `d`, then `crawl_folder("d")` reopens `./d` at every level until `opendir` fails, for instance when file descriptors run out (deflation.h:88, 105).
- `malloc`, `strdup` and `free` are not modelled. Names are values, so the copy `strdup` makes is implicit, and an allocation failure is not modelled.
- `filepathlist_free` (deflation.h:76-83) is left out: it only releases memory. It sets `files` to NULL and leaves `count` as it was. The model has no such state.
- The `supported_formats` table (deflation.h:59-60) is never read by the code, so it has no counterpart. `PostOrder.CrawlPathsComplete` states that nothing but `.` and `..` is filtered.
- The `INFO`, `ERR`, `DEBUG` and `FATAL` macros are diagnostic output and process exit. The text of the error message is not modelled.
- Deflation.DeflateFolder: `printed` holds the strings handed to `INFO`, as they stand. The code passes each one to printf as the format, so a name containing `%` is not printed verbatim (`Deflation.PercentNameNotVerbatim`), and some such names are undefined behaviour (see Findings and `Deflation.PrintfWithoutArguments`).
- The `deflate_cli.c` argument check and exit codes are left out: they are command-line plumbing around one call.
- The pack container, buffered writer, asset loader and record layout do not exist in this code, so they are not modelled.
- `size_t` arithmetic is unbounded in the model: `count` and `capacity` cannot wrap around.
