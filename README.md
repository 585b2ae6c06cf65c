# Kedro auto-catalog: a Dafny model of the scanner and the catalog builder

The auto-catalog tool walks a data folder, works out a Kedro dataset class for
every file it finds, and turns the result into Kedro catalog entries keyed by
the file's name. This project models that core and proves properties of it:

- `ToolScripts` holds the extension table `EXT_TO_KEDRO_DATASET` and
  `scan_data_folder`. The scan is two nested loops over the directories of a
  walk and their files (`ScanDataFolder`, `ScanDir`, with the per-file body in
  `ClassifyFile`). Each loop is proved against a specification function
  (`Scan`, `DirEntries`, `FileEntry`).
- `ToolScripts` also holds `to_catalog_entries`, the loop that inserts into
  and overwrites a dictionary (`ToCatalogEntries`). It is proved against
  `Catalog`.
- `LlmScripts` holds the post-processing that turns the language model's
  free-text reply into a dataset class or into "no result" (`ReplyToLabel`).
- `PurePath` holds the path operations the tool relies on: POSIX
  `os.path.join`, and `name`, `suffix` and `stem` of `pathlib.PurePosixPath`.
- `Text` holds the string operations: `lower()`, `in`, `replace`, `strip()`
  and `strip(chars)`.
- `Wrappers` holds `Option`, the stand-in for Python's `None`.

Three things outside the program are parameters of the scan, bundled in a
`Host` value:
- the list of directories `os.walk` yields (`WalkedDir`);
- `os.path.relpath`;
- the fallback classifier. It maps a file name and path to a `Completion`,
  which is either the reply text or `Raised`. `Raised` stands for any
  exception the scan catches: the file cannot be read, the service call
  fails, or the reply has no text.

The key properties proved:
- A file the table knows keeps the table's class whether the fallback is on or
  off. Only unknown files reach the fallback, and they get a class exactly when
  the reply passes the accept tests.
- Every recorded entry has a non-empty class containing a dot, and comes from
  one of the walked files.
- Turning the fallback off, or having it always fail, gives the table-only scan.
- A reply is rejected when it mentions `skip` or `none`, wherever they appear.
  An accepted label is trimmed in two steps: whitespace is stripped from the
  reply, then backticks and spaces are stripped from what is left. Whitespace
  inside the outer backticks is therefore kept (`` `\tpandas.CSVDataset` ``
  gives a label starting with a tab). Its letter case is kept, and no check is
  made against known classes.
  The result depends on the reply text alone: `ReplyToLabel` takes nothing else.
- Catalog keys are exactly the lower-cased stems of the files that have a
  class. For each key, the last such file wins. Every path is under `data/`
  with no backslash.

## Model

| member | source | states |
|---|---|---|
| ToolScripts.TableAliases | tool_scripts.py:8-16 | the table resolves exactly the seven listed extensions; `.xlsx` and `.xls` share `pandas.ExcelDataset`, `.yaml` and `.yml` share `yaml.YAMLDataset` |
| ToolScripts.TableLabelsHaveDot | tool_scripts.py:8-16 | every class in the extension table is a non-empty `module.Class` name containing a dot |
| ToolScripts.RuleTypeIgnoresCase | tool_scripts.py:24-27 | the table lookup by lower-cased suffix gives the same class for two file names that agree up to letter case |
| ToolScripts.RuleTypeOfPlainName | tool_scripts.py:24-27 | a name `base + ext` with one interior dot is classified exactly when `ext`, lower-cased, is a table key, and then by that key's class |
| ToolScripts.DatasetTypeCases | tool_scripts.py:24-36 | a table hit keeps the table's class with or without the fallback; a miss gives no class without the fallback; with the fallback, a miss gets a class iff the classifier replies and the reply is accepted |
| ToolScripts.DatasetTypeLabels | tool_scripts.py:27-36 | any class a file gets contains a dot; without the fallback it is one of the table's classes |
| ToolScripts.ClassifyFile | tool_scripts.py:24-43 | the per-file body (lookup, fallback on a miss with an exception meaning no class, record when truthy) yields exactly the file's specified entry |
| ToolScripts.ScanDir | tool_scripts.py:23-43 | the inner loop appends, in file order, the entry of each file that gets a class |
| ToolScripts.ScanDataFolder | tool_scripts.py:19-45 | the scan returns the concatenation, in walk order, of every directory's entries |
| ToolScripts.DirEntriesProvenance | tool_scripts.py:23-43 | every entry of a directory comes from one of its files: its path is the joined path, its class is that file's class (present, non-empty, with a dot), and its relative path is `relpath` of its path |
| ToolScripts.FileEntryProvenance | tool_scripts.py:24-43 | the entry recorded for a file, if any, has that file's joined path, its class and `relpath` of the path, and the class contains a dot |
| ToolScripts.ScanEntriesTyped | tool_scripts.py:38-43 | every entry of a whole scan has a non-empty class containing a dot and `relpath` of its path as relative path |
| ToolScripts.ScanProvenance | tool_scripts.py:22-43 | every entry of a whole scan comes from a file of one of the walked directories: its path is that file's joined path and its class is that file's class |
| ToolScripts.ScanWithoutLlmOnlyTableFiles | tool_scripts.py:24-43 | without the fallback, every entry of a scan is a walked file whose lower-cased extension is in the table, recorded with the table's class; a file with an unknown extension is never recorded |
| ToolScripts.ScanWithoutLlmIgnoresOracle | tool_scripts.py:29 | with the fallback off the classifier is never consulted: the scan depends only on the walk and `relpath` |
| ToolScripts.ScanWithFailingLlm | tool_scripts.py:29-36 | a classifier that always raises makes the fallback scan equal to the table-only scan |
| ToolScripts.ScanBounds | tool_scripts.py:22-43 | a scan records at most one entry per file, and the fallback scan has at least as many entries as the table-only scan |
| ToolScripts.DirEntriesBounds | tool_scripts.py:23-43 | the same bounds for one directory |
| ToolScripts.ToCatalogEntries | tool_scripts.py:48-65 | the loop builds exactly `Catalog(fileInfo)`: classless files skipped, later files overwriting earlier ones with the same name |
| ToolScripts.CatalogKeys | tool_scripts.py:51-60 | a name is a catalog key iff some file with a class has that lower-cased stem |
| ToolScripts.CatalogKeyPresent | tool_scripts.py:56-60 | a file with a class puts its name among the keys |
| ToolScripts.CatalogLastWriter | tool_scripts.py:60-63 | the entry under a name is the class and `data/` path of the last file with a class and that name |
| ToolScripts.CatalogSize | tool_scripts.py:51-63 | the catalog has at most as many entries as there are files with a class |
| ToolScripts.CatalogWellFormed | tool_scripts.py:52-63 | every key is lower-case; every path starts with `data/` and contains no backslash |
| ToolScripts.CatalogPathShape | tool_scripts.py:54-62 | the path is `data/` followed by the relative path character for character, each backslash turned into a slash |
| ToolScripts.ScanIsCatalogued | tool_scripts.py:38-60 | every entry the scan records has its name among the keys of the catalog built from the scan |
| ToolScripts.ExtensionsShareName | tool_scripts.py:52 | files that differ only in a one-dot extension get the same catalog name, their lower-cased base |
| ToolScripts.SameNameCollides | tool_scripts.py:60-63 | two files with a class and the same name leave a single entry, the later file's |
| LlmScripts.ReplyToLabelShape | llm_scripts.py:86-96 | an accepted label is non-empty and contains a dot, neither starts nor ends with a backtick or space, and is a slice of the whitespace-stripped reply with only backticks and spaces cut from around it |
| LlmScripts.TrimmedDot | llm_scripts.py:90-96 | a dot seen by the accept test survives both trims |
| LlmScripts.ReplyVerdict | llm_scripts.py:90-98 | a reply yields a label iff its lower-cased, backtick-free form mentions neither `skip` nor `none` and mentions both `.` and `dataset`; outer whitespace is irrelevant |
| LlmScripts.NormalizedContains | llm_scripts.py:86-90 | for a pattern of lower-case letters and dots, the stripped, lower-cased, backtick-free reply contains it iff the unstripped folded reply does |
| LlmScripts.FoldStripContains | llm_scripts.py:86-90 | stripping before and after folding neither hides nor creates an occurrence of a whitespace-free pattern |
| LlmScripts.AcceptsAnyCleanLabel | llm_scripts.py:95-96 | an accepted reply with nothing to trim comes back verbatim, whatever class it names |
| LlmScripts.NoneDatasetRejected | llm_scripts.py:92-93 | the reply `pandas.NoneDataset` is rejected, because `none` occurs in it |
| Text.StripShape | llm_scripts.py:86 | `strip` leaves a slice of the input whose first and last characters are not stripped characters, with only stripped characters cut away |
| Text.StripChars | llm_scripts.py:96 | `strip` adds no character, and keeps every character outside the stripped set |
| Text.StripKeepsContains | llm_scripts.py:90 | stripping a set of characters keeps exactly the occurrences of a non-empty pattern with none of them |
| Text.StripClean | llm_scripts.py:96 | a string with no stripped character at either end is its own strip |
| Text.RemoveAllChars | llm_scripts.py:90 | `replace("`", "")` leaves no backtick and only characters of the input |
| Text.RemoveAllKeepsOccurrence | llm_scripts.py:90-92 | an occurrence of a backtick-free pattern survives removing backticks |
| Text.LowerIdempotent | tool_scripts.py:52 | lower-casing twice is lower-casing once |
| PurePath.Join | tool_scripts.py:25 | an absolute file name replaces the directory; otherwise the result is the directory, then one `/` exactly when the directory is non-empty and does not end in `/`, then the file name |
| PurePath.Name | tool_scripts.py:24 | the final component has no `/` and is not `.`, and a plain name is its own final component |
| PurePath.LastIndexOf | tool_scripts.py:24 | the index of the last occurrence of a character, or -1 when none |
| PurePath.SuffixOfMeans | tool_scripts.py:24 | the suffix is present iff some dot is neither first nor last with no dot after it; it starts at that dot, has at least two characters and no further dot |
| PurePath.StemSuffixSplit | tool_scripts.py:52 | stem and suffix concatenate to the final component, and a non-empty component has a non-empty stem |
| PurePath.DotfileHasNoSuffix | tool_scripts.py:24 | a hidden file such as `.gitkeep` has no suffix, and its stem is the whole name |
| PurePath.PlainFileName | tool_scripts.py:24 | `base + ext` with a dot-free base and a one-dot extension has suffix `ext` and stem `base` |
| PurePath.NameOfJoin | tool_scripts.py:24-25 | the final component of a directory joined with a plain file name is that file name |
| PurePath.NameLower | tool_scripts.py:24 | taking the final component commutes with lower-casing |
| PurePath.SuffixIgnoresCase | tool_scripts.py:24 | the lower-cased suffix depends only on the lower-cased path |

## Left out

- The completion service and the prompt (`infer_kedro_dataset_type` before its line 86): the classifier is a parameter returning a reply or an exception; the prompt text has no effect on the post-processing.
- Reading the first five lines of a file (`open(...).readlines()`): part of the classifier parameter; any failure is the `Raised` case.
- `os.walk` and `os.path.relpath`: parameters (the walk's directories and file names; a `relpath` function). The walk's order and its sub-directory lists are whatever the parameter says.
- `write_catalog_to_yaml` and the three driver lines at the end of `tool_scripts.py` (file output through the YAML library).
- The `print` calls are not modelled as output. The print at `llm_scripts.py:88` runs inside the `try` of the scan; if the output stream cannot encode the reply, the file name or the arrow it prints, the exception it raises is folded into `Raised` like any other failure of the classifier.
- ScanDataFolder: an exception raised by the handler's own print (`tool_scripts.py:35`) would abort the scan; the model always returns.
- ToCatalogEntries: an exception raised by the print for a skipped file (`tool_scripts.py:57`) would abort the conversion; the model always returns.
- File names that `os.walk` decodes with lone surrogate escapes are not Dafny strings and are outside the model.
- `models.py` is not part of this model beyond the `ScannedDataFile` record, which mirrors the scan's entries.
- Dictionary insertion order: the catalog is a Dafny `map`; only the YAML writer, which is left out, observes the order.
- Text.Lower: models `str.lower()` on ASCII letters only. This is exact for the extension table and for the `skip`/`none`/`dataset` tests on ASCII replies. Non-ASCII case mappings (for example the Kelvin sign lower-casing to `k`) are not modelled.
- PurePath.Name: models POSIX paths only; Windows path semantics (`PureWindowsPath`, drive letters, backslash separators) are not modelled. The catalog's backslash-to-slash replacement is.
- PurePath.SuffixOf: follows the suffix rule of Python up to 3.13 (the last dot must be neither the first nor the last character of the name).
- Versioned datasets, noise filtering and batching are not present in the modelled code and are not modelled.
