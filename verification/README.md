# Cedar Folder Size Analyzer — a verified model of its core

Cedar Folder Size Analyzer is a desktop disk-usage viewer. It walks a directory tree and builds a size tree. In that tree every directory carries the total bytes below it. The window shows the tree largest first. The core modelled here is:

- **the size tree** (`DirNode`);
- **the two directory walkers**:
  - a sequential one;
  - a parallel one that fans out over the first two levels;
- **the post-scan sort** and **removal of a deleted path**;
- **volume resolution**: the disk whose mount point is the longest prefix of the scanned path;
- **the scan control state machine** of the window: start, stop, the worker's outcome, and polling the result slot;
- **the localisation lookup**: language codes, the `[key]` fallback, and `%n` / `%d` substitution;
- **the ICO writer** of the icon converter.

Modules, one per file:

| file | module | contents |
|---|---|---|
| `wrappers.dfy` | `Wrappers` | `Option` |
| `text.dfy` | `Text` | decimal rendering of integers, and reading a run of digits back |
| `size_tree.dfy` | `SizeTree` | `DirNode`, sizes, counts, the size invariant |
| `file_system.dfy` | `FileSystem` | the filesystem as the walkers see it: files with a size and a metadata flag, directories with a readable flag, other entries, unclassifiable entries, iterator errors |
| `scan_spec.dfy` | `ScanSpec` | the two walkers as functions of the filesystem and of what the cancel flag reads at each checkpoint; their properties |
| `scan_engine.dfy` | `ScanEngine` | class `Scan`: the shared counters as fields, and the walkers as loops proved equal to `ScanSpec` |
| `stable_order.dfy` | `StableOrder` | the order a stable largest-first sort gives a child list, as a function; that it is sorted, a permutation and stable |
| `tree_sort.dfy` | `TreeSort` | the in-place children sort on an array, the recursive `sort_tree` and `DirNode::sort_by_size` |
| `tree_remove.dfy` | `TreeRemove` | `remove_recursive` and what it leaves in the tree |
| `disk_info.dfy` | `DiskInfo` | `get_disk_info` over a disk list |
| `app.dfy` | `App` | class `BaobabApp`: `start_scan`, `stop_scan`, the worker `scan_directory`, the result poll, `remove_from_tree` |
| `format_size.dfy` | `FormatSize` | the unit choice of `format_size` |
| `i18n.dfy` | `I18n` | `Language`, `Translations::get`, `fallback`, `get_fmt`, and a corrected one-pass placeholder substitution |
| `ico.dfy` | `Ico` | the ICONDIR / ICONDIRENTRY / payload layout |

How the model is built:

- Paths are sequences of components below the root `/`. `Path::starts_with` is therefore a component-wise prefix.
- The cancel flag is an input `cancel: nat -> bool`. It gives what the flag reads at the k-th check of a scan.
- The parallel map (`par_iter().filter_map().collect()`) keeps order. It is modelled as a sequential map in entry order.
- `Rendered` gives the text of a mount point, and `MountLen` measures it.
- The icon payloads are opaque byte strings.
- The translation table is a `map<string, string>`.
- `DirNode::sort_by_size` has no caller outside itself. It is modelled all the same, as `TreeSort.SortBySize`, with the stable order of `sort_by` as a function (`StableOrder.StableSort`).
- Both sorts work on a node value and return the sorted tree, not updating `&mut` nodes in place. The child list of one node is sorted in place on an array.

## Model

| member | source | states |
|---|---|---|
| SizeTree.FileNameJoin | src/main.rs:1071-1075 | the name given to the node of a path joined with one more component is that component; the root, which has no last component, is named by its own text "/" |
| SizeTree.NewNode | src/main.rs:124-133 | a new node has the given path, name, size and kind, no children and is collapsed; a new directory node satisfies the size invariant exactly when its size is 0 |
| SizeTree.SizeIsFileBytes | src/main.rs:1104-1135 | in a tree where every directory's size is the sum of its children's, every node's size is the total of the file bytes below it |
| ScanSpec.SingleShape | src/main.rs:1059-1136 | `scan_recursive_single` yields `None` exactly when the flag is set on entry, and then changes no counter. Otherwise it yields a directory node named after the path's last component. That node's size is the sum of its children's at every depth. An unreadable directory gives size 0 and no children. The file counter grows by the file leaves of the tree, the directory counter by its directories other than the root itself, and the byte counter by the root's size |
| ScanSpec.SingleFull | src/main.rs:1104-1135 | with no cancellation the sequential walker yields exactly the reference tree: every readable file and every subdirectory, in listing order |
| ScanSpec.ParShape | src/main.rs:1139-1249 | `scan_recursive_parallel` yields `None` exactly when the flag is set on entry. Otherwise no child at the parallel levels is a file, each directory's size is at least the sum of its children's, and the sequentially scanned subtrees below depth 2 are size-consistent. The directory counter grows by the directories below the root, and the byte counter by the root's size |
| ScanSpec.ParFiles | src/main.rs:1171-1243 | with no cancellation the parallel walker's file counter grows by exactly the number of file leaves of the sequential reference tree, although it builds no node for them |
| ScanSpec.ParFull | src/main.rs:1171-1243 | with no cancellation the parallel walker yields exactly the parallel reference tree: subdirectories only, each directory's own file bytes in its size |
| ScanSpec.SameSizes | src/main.rs:1192-1209 | with no cancellation, both walkers give every directory the same size; the parallel one keeps file nodes out of the tree but not their bytes out of the sizes |
| ScanEngine.Scan.constructor | src/main.rs:1054-1056 | the three counters start at zero and no checkpoint has been read |
| ScanEngine.Scan.CancelRequested | src/main.rs:1067-1069 | one read of the flag: it returns the value at the current checkpoint and advances to the next |
| ScanEngine.Scan.ScanSingle | src/main.rs:1059-1136 | the sequential walker's node, the checkpoints it reads and the final counters are those of `ScanSpec.Single`; a cancel inside the loop only ends the loop, and the partial node is still returned |
| ScanEngine.Scan.ScanEntry | src/main.rs:1093-1128 | one turn of the loop after the flag check computes `ScanSpec.Step`: a subdirectory is walked and, when it yields a node, pushed with its size added and counted; a file with readable metadata is pushed as a leaf and counted with its bytes; any other entry changes nothing |
| ScanEngine.Scan.ScanParallel | src/main.rs:1139-1249 | the parallel walker's node, checkpoints and counters are those of `ScanSpec.Par` |
| ScanEngine.Scan.FanOut | src/main.rs:1171-1209 | the depth 0 and 1 branch computes `ScanSpec.Fan`: the collected pairs folded into `dir_size` and `children` |
| ScanEngine.Scan.Collect | src/main.rs:1172-1202 | the parallel map skips iterator errors without reading the flag; a cancel skips only that entry; the pairs collected amount to `ScanSpec.Fan` |
| ScanEngine.Scan.FanEntry | src/main.rs:1179-1200 | the closure for one entry: a subdirectory one level deeper, counted when it yields a node; a readable file counted with its bytes and no node; anything else nothing |
| ScanEngine.Fold | src/main.rs:1204-1209 | the fold adds every collected size and pushes every collected child, in order |
| ScanEngine.Scan.DeepLoop | src/main.rs:1210-1243 | depth 2 and below compute `ScanSpec.Deep`: the loop stops at a cancel, subdirectories go to the sequential walker, files add bytes but no node |
| StableOrder.StableSortSorted | src/main.rs:136 | the stable order puts the children in non-increasing size order |
| StableOrder.StableSortPermutes | src/main.rs:136 | the stable order is a permutation of the child list |
| StableOrder.StableSortKeepsOrder | src/main.rs:136 | `sort_by` is stable: for every size, the children of that size come out in the order they went in |
| StableOrder.StableSortSnoc | src/main.rs:136 | sorting one more child is inserting it after every earlier child at least as large |
| StableOrder.InsertAt | src/main.rs:136 | inserting a child lands it after the prefix of children at least as large and before the smaller ones, the rest unmoved |
| TreeSort.SortChildren | src/main.rs:136 | the in-place insertion sort leaves the children array in the stable largest-first order of what it held; `sort_tree`'s sort uses it too |
| TreeSort.Insert | src/main.rs:136 | one pass of the sort inserts the next child into the sorted prefix after every child at least as large, leaving the cells after it untouched |
| TreeSort.InsertPlaced | src/main.rs:1253 | the cells the insertion pass leaves are exactly the stable insertion of the moved child |
| TreeSort.SortedCopy | src/main.rs:136 | sorting a copy of a child list through an array gives the stable largest-first order |
| TreeSort.SortTree | src/main.rs:1252-1257 | after `sort_tree` every node's children are largest first at every depth, and the result is the input with children reordered at every level |
| TreeSort.SortTreeEach | src/main.rs:1254-1256 | `sort_tree` on each child in turn: each result is sorted everywhere and a reordering of that child |
| TreeSort.SortedKids | src/main.rs:1252-1257 | a node whose children are sorted reorderings of a largest-first permutation of its children is sorted everywhere and a reordering of the node |
| TreeSort.SortBySize | src/main.rs:135-140 | `sort_by_size` returns exactly the tree `SortedBySize` describes: every level in stable largest-first order, each child sorted the same way |
| TreeSort.SortBySizeEach | src/main.rs:137-139 | `sort_by_size` on each child in turn gives that child's `SortedBySize` tree |
| TreeSort.SortedBySizeSorted | src/main.rs:135-140 | after `sort_by_size` every node's children are largest first at every depth |
| TreeSort.SortedBySizeReordered | src/main.rs:135-140 | `sort_by_size` only reorders: every node keeps its path, name, size and flags, and every child list is a permutation of the original |
| TreeSort.ReorderedKeepsSizes | src/main.rs:1252-1257 | reordering children at every level keeps each directory's size equal to the sum of its children's sizes |
| TreeSort.SumSizesPermutation | src/main.rs:1253 | a permutation of a child list has the same total size |
| TreeRemove.KeepOthers | src/main.rs:320 | `retain` keeps exactly the children whose path differs from the removed one, and only those |
| TreeRemove.RemoveRecursive | src/main.rs:318-330 | `remove_recursive` returns the pruned tree and always reports `false`, so its early `return true` never fires and every level is visited |
| TreeRemove.PrunedNoneBelow | src/main.rs:317-345 | after removal no node below the root has the removed path |
| TreeRemove.PrunedPreorder | src/main.rs:317-345 | after removal the tree's pre-order is the original pre-order with the removed subtrees skipped, so all other nodes keep their relative order |
| TreeRemove.PruneAbsent | src/main.rs:317-345 | removing a path that is nowhere below the root changes nothing |
| DiskInfo.StartsWithJoin | src/main.rs:404 | `Path::starts_with` on components: a mount point followed by any further components starts with the mount point, and a path that starts with a mount point is that mount point followed by the rest of the path |
| DiskInfo.MountLen | src/main.rs:405-406 | a mount point's text is never empty, so every match beats the initial best length 0 |
| DiskInfo.KindLabel | src/main.rs:415-418 | the `{:?}` label is "SSD" exactly for SSDs and "HDD" exactly for HDDs |
| DiskInfo.GetDiskInfo | src/main.rs:392-424 | with no mount point a prefix of the path, the result is `(0, "Unknown", false)`. Otherwise it reports the disk that matches with a mount point strictly longer than every earlier match's and at least as long as every later match's. `is_ssd` holds exactly when the reported kind is "SSD" |
| App.BaobabApp.constructor | src/main.rs:270-282 | no tree, no selection, not scanning, default progress, empty slot, flag clear, no duration, size 0, speed 0 |
| App.BaobabApp.StartScan | src/main.rs:347-381 | `start_scan` marks a scan as running, clears the tree, the slot and the flag, and zeroes the three progress counters. Capacity and kind come from `get_disk_info`. The thread count is 1 unless the volume is an SSD, and the worker runs in parallel mode exactly on an SSD |
| App.BaobabApp.StopScan | src/main.rs:383-389 | `stop_scan` sets the flag, clears `is_scanning` and only changes the progress message |
| App.BaobabApp.PollResult | src/main.rs:841-888 | the slot is taken only while scanning and when the lock is free. `InProgress` is put back unchanged. `Complete` installs the root, records its size and, when the message parses, the duration and speed. `Cancelled` and `Error` clear `is_scanning` and zero size, duration and speed |
| App.StripPrefix | src/main.rs:853 | the rest is returned exactly when the prefix is there, and prefix plus rest is the message |
| App.CompletedSecs | src/main.rs:853-856 | a duration is read only from a message that starts with "Complete in " and ends with "s", and it is the parse of the text in between |
| App.CompletedSecsRoundTrip | src/main.rs:853-856 | the seconds read back from a "Complete in …s" message are the parse of the seconds the worker wrote into it |
| App.StripSuffix | src/main.rs:855 | the front is returned exactly when the suffix is there, and front plus suffix is the text |
| App.ExpandKeepsReordered | src/main.rs:1319 | expanding the sorted root keeps it a reordering of the scanned tree |
| App.SortedRoot | src/main.rs:1317-1319 | the published root is the scanned root with children largest first at every depth and reordered only, expanded, and size-consistent whenever the scanned tree was |
| FileSystem.Exists | src/main.rs:1037 | the root always exists, and a longer path exists only when its parent is a directory whose listing has an entry of that name |
| FileSystem.LookupChild | src/main.rs:1037 | the entry at a path extended by one name is the entry of that name in the listing of the directory at the path, and there is none when the path names no directory |
| App.BaobabApp.ScanDirectory | src/main.rs:1027-1330 | a missing path gives `Error("Path does not exist")`. Otherwise the slot ends `Cancelled` exactly when the flag was set at the first check, and `Complete` in every other case, including a cancel seen mid-scan. A completed root is the walker's tree reordered, largest first at every depth, and expanded. A completed scan sets the three progress counters to the walk's final counters and the message to "Complete in …s", and leaves every other progress field (current path, disk size and type, thread count) as it was. A cancelled scan changes only the progress message, which stays at the "Scanning (parallel mode)..." or "Scanning (single-threaded mode)..." text. The flag ends clear |
| App.BaobabApp.RemoveFromTree | src/main.rs:317-345 | removing the root's path drops the tree and the selection. Otherwise the path is pruned below the root, no node there keeps it, and the other nodes keep their order. The selection is cleared exactly when it was the removed path |
| FormatSize.UnitOf | src/main.rs:1332-1349 | the chosen unit is the largest of B, KB, MB, GB, TB not exceeding the size; the size is below 1024 of it unless it is TB |
| I18n.Code | src/i18n.rs:23-32 | every code is two letters |
| I18n.CodeRoundTrip | src/i18n.rs:23-54 | `from_code(l.code()) == l` for every language |
| I18n.FromCode | src/i18n.rs:45-54 | a code outside the recognised list gives English; a recognised one never does |
| I18n.RegionalVariants | src/i18n.rs:45-54 | a recognised regional code such as "zh-TW" or "es-MX" maps to the language whose code is its first two letters |
| I18n.All | src/i18n.rs:56-65 | six pairwise-distinct languages, English first |
| I18n.AllComplete | src/i18n.rs:56-65 | every language is listed |
| I18n.Name | src/i18n.rs:34-43 | every language's own name is non-empty and never its bare code; that names differ between languages is `I18n.CodesAndNamesDistinct` |
| I18n.CodesAndNamesDistinct | src/i18n.rs:23-43 | different languages have different codes and different names |
| I18n.Fallback | src/i18n.rs:94-99 | the fallback table holds only "app_title" |
| I18n.Get | src/i18n.rs:101-106 | a present key yields its text, an absent key exactly `"[" + key + "]"` |
| I18n.FallbackGet | src/i18n.rs:94-106 | on the fallback table "app_title" reads "Cedar Folder Size Analyzer" and every other key `[key]` |
| I18n.GetFmt | src/i18n.rs:108-116 | `get_fmt` computes the substitution rounds of `Substituted` over the looked-up template; with no arguments it is `get(key)` |
| I18n.OneArgument | src/i18n.rs:111-114 | with one argument free of `%`, a template whose literal text has no `%` gets every `%1` and every `%d` replaced by the argument, and no `%` is left |
| I18n.TenthPlaceholderAsWritten | src/i18n.rs:110-114 | as written, with ten or more arguments and a first argument without `%`, the placeholder `%10` comes out as the first argument followed by `0` |
| I18n.FillTemplate | src/i18n.rs:108-116 | the corrected substitution replaces every `%n` of a template that fits its arguments by argument n, for any n, and every `%d` by the first argument |
| I18n.TenArguments | src/i18n.rs:110-114 | with the arguments `a` … `j`, `%10` gives `a0` as written and `j` under the corrected substitution |
| Ico.LE16Decodes | icon_converter/src/main.rs:56 | the 16-bit little-endian field reads back as the count modulo 2^16 |
| Ico.LE32Decodes | icon_converter/src/main.rs:85-86 | a 32-bit little-endian field reads back as its value modulo 2^32 |
| Ico.DimByte | icon_converter/src/main.rs:79-80 | the width and height byte is the size below 256 and 0 from 256 up |
| Ico.WriteEntry | icon_converter/src/main.rs:79-86 | the eight writes of an entry append exactly one 16-byte ICONDIRENTRY |
| Ico.WriteIco | icon_converter/src/main.rs:49-95 | the writer produces the header, the entries with running offsets, then the payloads |
| Ico.AppendAll | icon_converter/src/main.rs:93-95 | the closing loop appends exactly the concatenation of the collected payloads, in order |
| Ico.HeaderLayout | icon_converter/src/main.rs:54-56 | the file starts with 0, 0, 1, 0 and then the image count as a little-endian u16 |
| Ico.EntryLayout | icon_converter/src/main.rs:79-86 | entry i is the 16 bytes at 6 + 16i. They hold width and height, then 0, 0, 1, 0, 32, 0, then the payload length and the payload's offset, both little-endian u32 |
| Ico.EntryFields | icon_converter/src/main.rs:79-86 | an ICONDIRENTRY reads back as the dimension byte twice, 0, 0, 1, 0, 32, 0, then the length and the offset modulo 2^32 |
| Ico.OffsetsAccumulate | icon_converter/src/main.rs:59-89 | the first offset is 6 + 16n, and each later one is the previous offset plus the previous payload's length |
| Ico.PayloadLayout | icon_converter/src/main.rs:88-95 | payload i lies in the file exactly at the offset its entry records |
| Ico.FileLength | icon_converter/src/main.rs:93-95 | the file is 6 + 16n bytes plus the payload lengths, nothing more |
| Ico.ConverterIcon | icon_converter/src/main.rs:13-80 | for the sizes 16, 32, 48, 64, 128, 256 the count field is 6, 0, the five smaller sizes are written as themselves, and 256 as 0 |

## Left out

- Concurrency:
  - the worker thread and rayon's thread pool;
  - the 200 ms progress reporter, and the reuse of the flag to stop it;
  - atomic orderings and mutexes.

  The parallel map is sequential and in entry order. The counters are plain fields. `try_lock` is the input `lockAcquired`. Mutex poisoning is not modelled.
- What the flag reads at each check is an input. A `stop_scan` racing with the worker is therefore not modelled as an interleaving.
- Operating-system calls:
  - `read_dir`, `file_type` and `metadata` become the `FileSystem.Entry` tree;
  - `exists` becomes `FileSystem.Exists`;
  - `sysinfo::Disks` becomes a disk-list input;
  - `rayon::current_num_threads()` becomes the input `poolThreads`.

  Trash, `open`, the file dialogs, locale and theme detection are not part of this model.
- Symbolic links on the scanned path: `exists` and `read_dir` follow them, and the model does not. A link as an ancestor component of the path makes `Lookup` fail, so `App.BaobabApp.ScanDirectory` reports "Path does not exist" where the program scans the link's target (as for `/tmp` on macOS or `/bin` on a merged-`/usr` Linux). A link at the path itself is an `Other` entry and gives an empty node.
- App.BaobabApp.PollResult: the `f64` parse of the seconds is the input `parse`. The duration and speed are exact reals, with no `f64` rounding. `Duration::from_secs_f64` panics on a negative or non-finite value; the model stores whatever `parse` returns. The `eprintln!` of the error text in the `Error` branch is output and is not modelled.
- App.BaobabApp.ScanDirectory: the elapsed time is the input `elapsed`, already rendered with two decimals. The method writes the intermediate "Sorting..." message as the program does, but its contract states only the final progress record: a poll that reads the record while the tree is being sorted is concurrency, which the model leaves out.
- Integer widths:
  - sizes and counters are unbounded naturals, so `u64` and `usize` overflow are not modelled;
  - the `file_size as usize` cast equals the size on 64-bit targets.
- DiskInfo.MountLen: the length is the length of the rendered text in characters, not in OS-string bytes. The comparison uses only its ordering, so the two agree for ASCII mount points. Windows drive prefixes are not modelled.
- TreeSort.SortTree: `sort_unstable_by` may put children of equal size in any order. The model runs the same stable insertion sort as `sort_by_size`, which is one of the orders allowed. Its contract states only what the unstable sort promises: order and permutation.
- FormatSize.UnitOf: the `{:.2}` division and the rendered string are floating point and are left out.
- The user interface: panels, tree rendering, the 200-children display cap, icons and fonts.
- Configuration persistence and `Translations::load`'s JSON parsing. A translation table is an input map.
- Image rendering and PNG encoding in the icon converter. The payloads are inputs. A failed `write_all` or file creation, which stops the converter with an error, is not modelled.
- I18n.OneArgument: "no `%1` or `%d` is left" is proved only for templates whose literal text has no `%`. With a literal `%` it can fail. For example, template `%%1` with argument `1` gives `%1`.

## Findings

| source | as written | input that shows it | evidently intended | confidence | as-written member | corrected member |
|---|---|---|---|---|---|---|
| src/i18n.rs:110-114 | round i of `get_fmt` replaces every `%i` in turn, starting with `%1`, so round 1 also rewrites the `%1` at the front of `%10`, `%11`, … | template `%10` with the ten arguments `a` … `j` gives `a0` | `%10` becomes the tenth argument, `j` | not executed | I18n.TenthPlaceholderAsWritten | I18n.FillTemplate |

`I18n.GetFmt` stays the code as written. `I18n.Fill` is the corrected reading: one pass from the left, where `%` followed by its whole run of digits becomes the argument that number names, when it names one (otherwise the `%` stays as it is), and `%d` becomes the first argument. Text that has been inserted is never scanned again.
