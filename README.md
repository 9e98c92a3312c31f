# torchext core, modelled in Dafny

This project models the deterministic core of `torchext`, a small PyTorch
helper library, and proves properties of that model. The core has three parts.

- **Dataset stages** (`torchext/data.py`, modules `Data` and `Buckets`). These
  are map, filter, repeat with a finite count, windowed shuffle, fixed-size
  batch and length-bucketed batch, plus the newline stripping of
  `TextLineDataset`.
  - Each Python generator becomes a method over a finite source sequence. Its
    loop follows the generator body and appends to `out` where the generator
    yields. Local buffers are kept as they are: `buf` and `batch` are `seq`
    variables, and the bucket list is an `array<seq<T>>` updated in place.
  - Each method is proved equal to a specification function (`Mapped`,
    `Filtered`, `Repeated`, `Batches`, `Bucketed`) or to a relation
    (`ShuffledWindows`). The promised properties are lemmas about those
    functions.
  - `map_fn`, `filter_fn`, `length_fn` and `collate_fn` are arbitrary total
    functions. `random.shuffle` is an arbitrary permutation of the window.
  - `MappedDataset` is a plain sequential loop; the code has no parallel or
    worker-pool map, so none is modelled.
- **Checkpoint and small utilities** (`torchext/utils.py`, module `Utils`).
  - The `checkpoint-{:08d}.pt` name, with its digits and padding written out.
  - `glob` is a filter over the listing of the directory it searches.
    That directory is split off the pattern `"{model_dir}/checkpoint-*"` as
    `os.path.split` does, so an empty `model_dir` searches the root while
    `torch.save` writes to the working directory. `list.sort` is a proved
    insertion sort over Python's string order, and `os.path.join` is written
    out for POSIX paths. These are used for retention in `save_checkpoint`
    and for selection in `load_checkpoint`.
  - `range_step`, driven by an explicit number of `next` calls.
  - `log_level_value`.
- **Configuration** (`torchext/config.py`, module `Config`).
  - The module namespace is `class Registry`, whose `entries` map is updated
    in place by `Update` (`_update`) and read by `Dict` (`_dict`).
  - `Load` is the `_load` loop. It prepends the saved `config.yml`, splits
    each item at its first `=`, and applies YAML files or coerced values in
    list order.
  - `LoadSpec` and `ApplyItems` state the same behaviour as functions. The
    override rules are lemmas about them.
  - The file system (which paths exist, and what `yaml.load` makes of each)
    is a parameter, and so are Python's `int()` and `float()` on strings.

Strings are `seq<char>`. Module `Strings` holds the Python `str` behaviour the
core relies on: `strip()` with Python's whitespace set, ASCII `lower()`, code
point order for `<`, and a sort.

## Model

| member | source | states |
|---|---|---|
| Data.Mapped | torchext/data.py:49-51 | the mapped stream has the source's length, and element i is `map_fn(source[i])` |
| Data.MappedAppend | torchext/data.py:49-51 | mapping a concatenation is the concatenation of the mapped parts |
| Data.MapStage | torchext/data.py:49-51 | the generator loop yields exactly `map_fn` over the source, in order |
| Data.Filtered | torchext/data.py:59-62 | every yielded element satisfies `filter_fn`, and there are no more elements than in the source |
| Data.FilteredCount | torchext/data.py:59-62 | each value occurs as often as in the source when `filter_fn` holds of it, and never otherwise |
| Data.FilteredAppend | torchext/data.py:59-62 | filtering keeps source order: it distributes over concatenation |
| Data.FilteredAll | torchext/data.py:59-62 | the output is the whole source if and only if every element passes |
| Data.FilteredEmpty | torchext/data.py:59-62 | the output is empty if and only if no element passes |
| Data.FilteredTwice | torchext/data.py:59-62 | filtering by one test, then another, is filtering once by both |
| Data.FilteredMapped | torchext/data.py:49-62 | filter-then-map equals map-then-filter when the two tests agree through the map |
| Data.FilterStage | torchext/data.py:59-62 | the generator loop yields exactly the passing elements, in source order |
| Data.Repeated | torchext/data.py:70-75 | the output has length `count * len(source)`, and is empty when `count <= 0` |
| Data.RepeatedAt | torchext/data.py:70-75 | element j of copy q sits at offset `q * len(source) + j` |
| Data.RepeatedAdd | torchext/data.py:70-75 | repeating m times and then n times is repeating m + n times |
| Data.RepeatStage | torchext/data.py:70-75 | the `while c < count` loop with its inner `for` yields the source `count` times over |
| Data.Shuffle | torchext/data.py:88 | `random.shuffle` yields a permutation of the window |
| Data.ShuffledWindows | torchext/data.py:83-95 | definition of the stage's output: each complete window of `buffer_size` inputs, in place, as a permutation of itself, then the leftover inputs unchanged; everything unchanged when `buffer_size < 1` |
| Data.ShuffleStage | torchext/data.py:83-95 | the output is each complete window permuted in place, then the leftover tail unchanged |
| Data.ShuffledIsPermutation | torchext/data.py:83-95 | the output has the input's length and multiset |
| Data.ShuffleWindowAt | torchext/data.py:83-91 | window q comes out at positions `q*size .. (q+1)*size` as a permutation of itself |
| Data.ShuffleTail | torchext/data.py:93-95 | the trailing partial window comes out unchanged, at the end |
| Data.ShuffleUnitBuffer | torchext/data.py:83-95 | with `buffer_size == 1` the stage is the identity |
| Data.Batches | torchext/data.py:104-113 | empty input gives no batch. Every batch is non-empty, all but the last have exactly `batch_size` elements, and the last has at most that. With `batch_size < 1` there is a single batch of everything |
| Data.FlattenBatches | torchext/data.py:104-113 | concatenating the batches gives back the input |
| Data.BatchCount | torchext/data.py:104-113 | for `batch_size >= 1` there are `ceil(len / batch_size)` batches |
| Data.BatchSizesForTen | torchext/data.py:104-113 | ten elements in batches of four come out as batches of 4, 4 and 2 |
| Data.BatchStage | torchext/data.py:104-113 | the loop yields `collate_fn` over exactly those batches, in order |
| Data.DropLineEnd | torchext/data.py:148 | a trailing `"\r\n"` is removed when there is one, else a trailing `"\n"`, else nothing; what remains is a prefix of the line |
| Data.StripNewline | torchext/data.py:148-156 | `re.sub(r'\r?\n$', '', line)` removes `"\r\n\n"` or `"\n\n"` from a line ending in two newlines, otherwise `"\r\n"` or `"\n"`, and the longer of the two when both end the line; it changes the line if and only if the line ends in `"\n"` |
| Data.StripLine | torchext/data.py:155-156 | on a line read from a file, exactly the terminator is removed; the result has no `"\n"` and is a fixed point |
| Buckets.BucketIndex | torchext/data.py:130-136 | the element goes to the first index whose boundary is at least its length (a length equal to a boundary lands there); there is no bucket if and only if it exceeds every boundary |
| Buckets.BucketRun | torchext/data.py:128-136 | the state after the outer loop has one bucket per boundary; what it holds is stated by the Run lemmas below |
| Buckets.BucketStep | torchext/data.py:129-136 | one outer iteration keeps the number of buckets |
| Buckets.RunWellFilled | torchext/data.py:128-136 | every bucket holds only its own elements, fewer than its positive batch size |
| Buckets.RunAllFull | torchext/data.py:128-136 | every batch emitted inside the loop has exactly `batch_sizes[i]` elements, all of bucket i |
| Buckets.RunInOrder | torchext/data.py:128-136 | for each bucket, the elements emitted and then the buffered ones are its source elements in source order |
| Buckets.RunConserved | torchext/data.py:128-136 | the elements emitted plus buffered are, as a multiset, the kept elements read so far |
| Buckets.Flush | torchext/data.py:138-140 | the final loop emits no more batches than there are buckets, and never an empty one |
| Buckets.FlushShape | torchext/data.py:138-140 | the final flush emits partial batches in strictly increasing bucket order, each smaller than its positive batch size |
| Buckets.FlushOfBucket | torchext/data.py:138-140 | per bucket, the flush emits exactly that bucket's buffer |
| Buckets.FlattenFlush | torchext/data.py:138-140 | skipping empty buckets loses no element |
| Buckets.Bucketed | torchext/data.py:126-140 | definition of the stage's batches: those emitted inside the loop, then the non-empty buckets in bucket order; its properties are the Bucketed lemmas below |
| Buckets.BucketedShape | torchext/data.py:127-140 | the output is full batches, then at most one partial batch per bucket, in bucket order |
| Buckets.BucketedOrder | torchext/data.py:127-140 | within each bucket, the output keeps source order and holds all of that bucket's elements |
| Buckets.BucketedTotal | torchext/data.py:127-140 | the output holds exactly the non-dropped elements, as a multiset, so the counts agree |
| Buckets.BucketedDrops | torchext/data.py:130-136 | an element longer than every boundary appears in no batch |
| Buckets.ExampleFirstThree | torchext/data.py:128-136 | boundaries [5, 10] and batch sizes [2, 2] on lengths 3, 7, 4: bucket 0 emits [3, 4] and bucket 1 holds [7] |
| Buckets.BucketedExample | torchext/data.py:127-140 | the same stage on 3, 7, 4, 12, 6 emits [3, 4], then [7, 6], and drops 12 |
| Buckets.BucketStage | torchext/data.py:126-140 | the generator, with the bucket list as an array, yields `collate_fn` over exactly `Bucketed` |
| Buckets.PlaceSample | torchext/data.py:129-136 | the inner loop appends the sample to its bucket and hands the bucket back emptied when it reaches its batch size |
| Buckets.FlushBuckets | torchext/data.py:138-140 | the final loop yields `collate_fn` over the non-empty buckets, in index order |
| Strings.Strip | torchext/config.py:63 | `str.strip()`: the result neither starts nor ends with whitespace |
| Strings.StripIsCore | torchext/config.py:63 | the input is the result with only whitespace before and after it |
| Strings.StripIdempotent | torchext/config.py:63 | stripping twice is stripping once |
| Strings.StripSurrounded | torchext/config.py:63 | whitespace around an unpadded core is removed, and nothing else is |
| Strings.AsciiLower | torchext/config.py:78 | `lower()` maps A-Z to a-z and keeps every other character |
| Strings.JoinPath | torchext/utils.py:33 | `os.path.join(dir, name)` is the name alone for an empty directory, the directory followed by the name when the directory ends in `/`, and the directory, `/` and the name otherwise |
| Strings.JoinPathInjective | torchext/utils.py:33 | different names in one directory give different paths |
| Strings.JoinPathOrder | torchext/utils.py:27-28 | paths in one directory sort as their names do |
| Strings.Sort | torchext/utils.py:28 | `list.sort()` yields the same strings, ordered |
| Strings.SortedUnique | torchext/utils.py:28 | two sorted lists holding the same strings are equal, so any correct sort gives the same list |
| Utils.Decimal | torchext/utils.py:33 | the decimal digits of n, with a leading zero only for 0 |
| Utils.DecimalValue | torchext/utils.py:33 | reading the digits back gives n |
| Utils.DecimalLength | torchext/utils.py:33 | n has at most k digits if and only if `n < 10^k` |
| Utils.Padded8 | torchext/utils.py:33 | `{:08d}` denotes the step with at least eight digits, exactly eight if and only if the step is below 10^8, and from 10^8 on it is the plain decimal numeral, with no leading zero |
| Utils.FixedWidthOrder | torchext/utils.py:28-33 | between digit strings of one length, string order is numeric order |
| Utils.CheckpointName | torchext/utils.py:33 | the name starts with `checkpoint-` and ends with `.pt`; it has 22 characters if and only if the step is below 10^8 |
| Utils.CheckpointNameDigits | torchext/utils.py:33 | between `checkpoint-` and `.pt` stand exactly the `{:08d}` digits of the step |
| Utils.CheckpointNameInjective | torchext/utils.py:33 | different steps give different names |
| Utils.CheckpointNameOrder | torchext/utils.py:27-33 | for steps below 10^8, the names sort as the steps do |
| Utils.TrimSlashes | torchext/utils.py:27 | `rstrip('/')` leaves no trailing slash and is no longer than its input |
| Utils.TrimSlashesPrefix | torchext/utils.py:27 | what `rstrip('/')` removed is slashes only, from the end |
| Utils.GlobDir | torchext/utils.py:27 | the directory the glob searches; for an empty `model_dir` it is the root `/` |
| Utils.GlobDirSplit | torchext/utils.py:27 | it is `model_dir` less its trailing slashes, ending in a non-slash, or `model_dir` plus one slash when `model_dir` is all slashes |
| Utils.GlobDirIsDir | torchext/utils.py:27-33 | for a non-empty `model_dir` without a trailing slash, globbed paths are the `os.path.join` paths `torch.save` writes |
| Utils.Globbed | torchext/utils.py:27 | definition of `glob.glob`: the searched directory joined to each checkpoint entry, in listing order; its properties are the Globbed lemmas below |
| Utils.GlobbedEntry | torchext/utils.py:27 | every globbed path is the joined path of a listed checkpoint entry |
| Utils.GlobbedHas | torchext/utils.py:27 | every listed checkpoint entry is globbed |
| Utils.GlobbedNoDuplicates | torchext/utils.py:27 | a listing without duplicates globs to paths without duplicates |
| Utils.CheckpointFilepaths | torchext/utils.py:26-29 | the checkpoint paths, sorted, each exactly as often as globbed |
| Utils.LoadCheckpoint | torchext/utils.py:43-47 | none if and only if no checkpoint entry exists; otherwise a checkpoint path that every other one precedes |
| Utils.LoadIsLast | torchext/utils.py:44-47 | the loaded path is the last of the sorted paths |
| Utils.LoadLatest | torchext/utils.py:43-47 | among steps below 10^8, the loaded checkpoint has the greatest listed step |
| Utils.Written | torchext/utils.py:35 | `torch.save` creates the entry or overwrites it, and no other entry appears |
| Utils.Saved | torchext/utils.py:35 | a non-empty `model_dir` gets the checkpoint written into the searched directory; with an empty one the searched directory is unchanged |
| Utils.Doomed | torchext/utils.py:38-39 | the removed paths are a prefix of the sorted paths. When `keep_max` is truthy and smaller than the count, exactly `keep_max` remain; a negative `keep_max` removes all; otherwise none is removed |
| Utils.RemoveAll | torchext/utils.py:39-40 | removing the doomed paths one by one leaves the listing without exactly those entries |
| Utils.AfterSave | torchext/utils.py:32-40 | definition of the directory after `save_checkpoint`: the checkpoint written, then the doomed paths removed; its properties are the lemmas below |
| Utils.SaveCheckpoint | torchext/utils.py:32-40 | the directory after a save is the listing with the checkpoint written and the doomed prefix removed |
| Utils.GlobbedWithout | torchext/utils.py:37-40 | removing entries takes exactly their paths out of the glob and keeps the rest in order |
| Utils.RetainSuffix | torchext/utils.py:37-40 | the checkpoint paths left after a save are the sorted paths less the removed prefix |
| Utils.RetainLast | torchext/utils.py:37-40 | a falsy `keep_max` keeps every path; a positive one keeps `min(count, keep_max)`; a negative one keeps none |
| Utils.OthersSurvive | torchext/utils.py:38-40 | entries that are not checkpoint files are never removed |
| Utils.NewestLast | torchext/utils.py:27-35 | a checkpoint whose name sorts no earlier than any other sorts last after it is written |
| Utils.SavedIsLast | torchext/utils.py:32-49 | when the written checkpoint sorts last and `keep_max` is not negative, `load_checkpoint` picks it |
| Utils.SaveThenLoad | torchext/utils.py:32-49 | for a non-empty `model_dir`, a save at a step no older than any listed checkpoint is what the next load picks |
| Utils.EmptyDirSaveUnseen | torchext/utils.py:26-49 | for an empty `model_dir`, a load that found no checkpoint before a save finds none after it |
| Utils.Pull | torchext/utils.py:52-58 | at most one value per pull; the generator is still suspended exactly when every pull yielded |
| Utils.PullShape | torchext/utils.py:52-58 | the values are start, start+1, and so on. A falsy `end` never stops. A truthy `end` stops after `end - start + 1` values (none if `start > end`) exactly when more are asked for |
| Utils.RangeStep | torchext/utils.py:52-58 | the counter loop with its early exit produces exactly `Pull` |
| Utils.RangeStepAsWritten | torchext/utils.py:55-56 | `range_step(1, 3)` pulled four times yields 1, 2, 3 and then raises `RuntimeError` |
| Utils.RangeStepCorrected | torchext/utils.py:52-58 | with a plain `return`, `range_step(start, end)` yields start..end inclusive and finishes |
| Utils.LogLevelValue | torchext/utils.py:61-70 | exactly "WARN", "INFO" and "DEBUG" (case-sensitive) map to 30, 20 and 10; anything else gives a `ValueError` naming the string |
| Utils.LevelRoundTrip | torchext/utils.py:61-70 | names and levels map to each other in both directions |
| Config.SplitItem | torchext/config.py:63-64 | an item with no `=` is a file path, used as given; otherwise the key and value are the stripped text before and after the first `=` |
| Config.SplitJoin | torchext/config.py:63 | `key=value` splits back into the key and the value, even when the value holds `=` |
| Config.Keyword | torchext/config.py:78-84 | True, False and None exactly when the stripped, lower-cased value is `true`, `false` and `null`; nothing otherwise |
| Config.Coerce | torchext/config.py:72-84 | `int` first, then `float`; when both reject the value, True, False or None exactly for the keywords `true`, `false` and `null` (any case, surrounding whitespace ignored), else the string itself |
| Config.KeywordCaseInsensitive | torchext/config.py:78-84 | values that differ only in letter case coerce alike when either is a keyword |
| Config.Public | torchext/config.py:40-41 | exactly the entries whose key does not start with `_`, with their values |
| Config.PublicUpdate | torchext/config.py:33-41 | an update shows in `_dict` exactly when its key is public |
| Config.Assign | torchext/config.py:68-69 | a file's pairs bind each of their keys and keep every other key |
| Config.AssignUntouched | torchext/config.py:68-69 | a key no pair names keeps its entry, or its absence |
| Config.AssignLast | torchext/config.py:68-69 | the last pair for a key decides it |
| Config.ApplyItem | torchext/config.py:62-84 | a path with no file raises `MissingConfigFile`, a file that is not a mapping raises `NoItems`, each if and only if; an item that raises changes no entry |
| Config.ApplyItems | torchext/config.py:62-85 | no items leave the entries as they were, with no error; an error raised is that of one of the items |
| Config.ApplyItemsAppend | torchext/config.py:62-85 | the loop over two lists in turn is the loop over the first, then, unless that raised, over the second from where the first left off |
| Config.ApplyItemsSplit | torchext/config.py:62-85 | the loop over a list is the loop over its first `i` items, then, unless that raised, the loop over the rest from where they left the entries |
| Config.FirstErrorStops | torchext/config.py:62-85 | the first item that raises ends the loop with its error, and the entries hold exactly the updates of the items before it |
| Config.ApplyItemUntouched | torchext/config.py:62-85 | an item that does not write a key leaves that key as it was |
| Config.ApplyUntouched | torchext/config.py:62-85 | items that do not write a key leave that key as it was |
| Config.LastAssignmentWins | torchext/config.py:62-85 | the last `key=value` item for a key decides it, once the loop has finished without error |
| Config.FirstAssignmentWins | torchext/config.py:62-85 | a leading `key=value` that no later item writes decides the key |
| Config.SavedConfigPath | torchext/config.py:56 | the saved path ends with `config.yml` |
| Config.LoadSpec | torchext/config.py:52-88 | a missing saved file without `initialize` raises before any update. With a saved file, the entries and the error are those of the item loop over the saved path followed by the command-line items, and nothing is saved. A fresh, initialized directory gets the entries and the error of the loop over the command-line items, and is saved if and only if the loop raised nothing, with the final public configuration |
| Config.CommandLineOverridesSaved | torchext/config.py:56-85 | with a saved file, a command-line `key=value` not overridden later decides the key, whatever the saved file says |
| Config.SavedValueKept | torchext/config.py:56-69 | with a saved file, a key the command line never writes keeps the saved file's last value for it |
| Config.SavedPathIsFile | torchext/config.py:56-64 | the saved path is read as a file when the model directory has no `=` |
| Config.SavedPathWithEquals | torchext/config.py:56-64 | for model directory `lr=0.1` the saved path is read as the item `lr` = `0.1/config.yml` |
| Config.Registry.Update | torchext/config.py:33-37 | `_update` binds the key to the value, and every other key keeps its entry or its absence |
| Config.Registry.Dict | torchext/config.py:40-41 | `_dict` has exactly the keys that do not start with `_`, each with its entry's value |
| Config.Registry.ApplyPairs | torchext/config.py:68-69 | the loop over `obj.items()` leaves the entries as `Assign` says |
| Config.Registry.Load | torchext/config.py:52-88 | the entries afterwards, the error raised and the configuration saved are exactly what `LoadSpec` says |

## Left out

- File and stream I/O. `open` and `sys.stdin` in `TextLineDataset` are left out, and the newline rule is applied to each line as given. Also left out: `CsvDataset`, `torch.save` and `torch.load` contents, `os.makedirs`, and `yaml.dump`. `_save` is represented only by the public configuration it would write.
- `glob`, `os.remove` and `os.path.exists` act on a directory listing, or on a map from path to YAML content, passed as a parameter; they do not act on a real file system.
- Logging and `_print` are left out; they have no effect on the values modelled.
- `parse_args` and `torchext/estimator.py` (the training loop, tensorboard, CUDA, float statistics) are not part of this model.
- `RepeatedDataset` with `count=None` repeats forever. Only finite counts are modelled.
- Shuffle: `random.shuffle` is an arbitrary permutation. Its distribution is not modelled.
- Python's `int()` and `float()` on a string are parameters, not parsers, and a float is an opaque 64-bit value.
- Config: YAML keys are taken to be strings, and YAML values other than scalars are opaque.
- Config: a configuration key that rebinds one of the module's own `_` names replaces that name only in the entries map; the module's behaviour afterwards is not modelled.
- Strings.AsciiLower: lower-cases ASCII letters only. Other characters that `str.lower()` changes never lower-case to the ASCII letters of `true`, `false` or `null`, so keyword detection is unaffected.
- Utils.GlobDir: glob metacharacters (`*`, `?`, `[`) in `model_dir` are matched literally here; `glob` would treat them as a pattern.
- Utils.EmptyDirSaveUnseen: the working directory is taken to differ from the root. When it is the root, an empty `model_dir` saves into the searched directory.
- Utils.SaveThenLoad: requires a non-empty `model_dir`. With an empty one the code writes the checkpoint to the working directory but searches the root, so the load does not see it (Utils.EmptyDirSaveUnseen).
- Strings.JoinPath: a name that is an absolute path (on which `os.path.join` discards the directory) is not modelled. Checkpoint names and `config.yml` are relative.
- Utils.Pull: `range_step` is driven by a given number of `next` calls instead of an unbounded consumer.
- Utils.LoadLatest: states the step order only for steps below 10^8; above that, longer names can sort before shorter ones.
- Buckets.BucketStage: requires `batch_sizes` to be at least as long as `boundaries`. Python raises `IndexError` only when a sample actually reaches a bucket without a batch size, and that error path is not modelled.
- Config.LoadSpec: with an empty `model_dir` and no saved file, `_save` calls `os.makedirs("")`, which raises `FileNotFoundError`; the model, which leaves `os.makedirs` out, reports that save as successful.
- Config.SavedValueKept: requires the model directory to contain no `=`. With one, the saved path is read as a `key=value` item (see Config.SavedPathWithEquals).
- Config.LastAssignmentWins: states the override only for a loop that finished without error. After an error, the entries hold the updates made before it, which Config.FirstErrorStops states.

## Findings

| source | as written | input that shows it | evidently intended | confidence | as-written member | corrected member |
|---|---|---|---|---|---|---|
| torchext/utils.py:55-56 | `raise StopIteration` inside the generator body; under PEP 479 (Python 3.7 and later) this reaches the caller as `RuntimeError` | `range_step(1, 3)` pulled four times, e.g. by `zip` with a four-element list | the generator ends after yielding `end` (a plain `return`), so `zip` stops cleanly after three pairs | not executed | Utils.RangeStepAsWritten | Utils.RangeStepCorrected |
