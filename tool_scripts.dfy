/**
 * The catalog generator proper: the extension table, the folder scan that
 * classifies every file by extension with a language-model fallback, and the
 * conversion of scanned files into Kedro catalog entries keyed by file stem.
 */
module ToolScripts {
  import opened Wrappers
  import opened Text
  import opened PurePath
  import opened LlmScripts

  /** The dataset class for each known (lower-case) file extension. */
  const ExtToKedroDataset: map<string, string> := map[
    ".csv" := "pandas.CSVDataset",
    ".parquet" := "pandas.ParquetDataset",
    ".xlsx" := "pandas.ExcelDataset",
    ".xls" := "pandas.ExcelDataset",
    ".xml" := "pandas.XMLDataset",
    ".yaml" := "yaml.YAMLDataset",
    ".yml" := "yaml.YAMLDataset"
  ]

  /** Python truthiness of an optional string: present and non-empty. */
  predicate Truthy(o: Option<string>)
  {
    o.Some? && o.value != []
  }

  /** The dataset class the extension table gives a file name, looked up by its lower-cased suffix. */
  function RuleType(file: string): Option<string>
  {
    var ext := Lower(Suffix(file));
    if ext in ExtToKedroDataset then Some(ExtToKedroDataset[ext]) else None
  }

  /**
   * One directory as `os.walk` reports it: the directory's path and the names
   * of the files directly inside it (the sub-directory list is not used).
   */
  datatype WalkedDir = WalkedDir(root: string, files: seq<string>)

  /**
   * What the scan needs from outside: `os.path.relpath(path, start)`, and the
   * fallback classifier called with a file's name and full path (it reads the
   * first lines of the file and asks the completion service).
   */
  datatype Host = Host(relpath: (string, string) -> string, llm: (string, string) -> Completion)

  /** A scanned file (the `ScannedDataFile` record): its path, its path relative to the data folder, its class. */
  datatype ScannedDataFile = ScannedDataFile(fullPath: string, relPath: string, datasetType: Option<string>)

  /** The class the fallback classifier gives a file; an exception counts as no class. */
  function FallbackType(file: string, fullPath: string, host: Host): Option<string>
  {
    match host.llm(file, fullPath)
    case Raised => None
    case Replied(content) => ReplyToLabel(content)
  }

  /** The class of one file: the table's, or, when that gives none and the fallback is on, the classifier's. */
  function DatasetType(file: string, fullPath: string, useLlm: bool, host: Host): Option<string>
  {
    var rule := RuleType(file);
    if useLlm && !Truthy(rule) then FallbackType(file, fullPath, host) else rule
  }

  /** The entry the scan records for `file` in directory `root`, if it gets a class. */
  function FileEntry(root: string, file: string, dataDir: string, useLlm: bool, host: Host): Option<ScannedDataFile>
  {
    var fullPath := Join(root, file);
    var datasetType := DatasetType(file, fullPath, useLlm, host);
    if Truthy(datasetType) then Some(ScannedDataFile(fullPath, host.relpath(fullPath, dataDir), datasetType))
    else None
  }

  /** The entries recorded for the files of one directory, in order. */
  function DirEntries(root: string, files: seq<string>, dataDir: string, useLlm: bool, host: Host): seq<ScannedDataFile>
  {
    if files == [] then []
    else
      var e := FileEntry(root, files[|files| - 1], dataDir, useLlm, host);
      DirEntries(root, files[..|files| - 1], dataDir, useLlm, host) + (if e.Some? then [e.value] else [])
  }

  /** The entries recorded for a whole walk, directory by directory. */
  function Scan(walk: seq<WalkedDir>, dataDir: string, useLlm: bool, host: Host): seq<ScannedDataFile>
  {
    if walk == [] then []
    else
      var d := walk[|walk| - 1];
      Scan(walk[..|walk| - 1], dataDir, useLlm, host) + DirEntries(d.root, d.files, dataDir, useLlm, host)
  }

  /**
   * The body of the scan for one file: look its lower-cased suffix up in the
   * table, ask the classifier when that gives nothing and the fallback is on
   * (an exception meaning no class), and record the file when it has a class.
   */
  method ClassifyFile(root: string, file: string, dataDir: string, useLlm: bool, host: Host)
    returns (entry: Option<ScannedDataFile>)
    ensures entry == FileEntry(root, file, dataDir, useLlm, host)
  {
    var ext := Lower(Suffix(file));
    var fullPath := Join(root, file);
    var relPath := host.relpath(fullPath, dataDir);
    var datasetType := if ext in ExtToKedroDataset then Some(ExtToKedroDataset[ext]) else None;
    if useLlm && !Truthy(datasetType) {
      match host.llm(file, fullPath)
      case Raised =>
        datasetType := None;
      case Replied(content) =>
        datasetType := ReplyToLabel(content);
    }
    entry := if Truthy(datasetType) then Some(ScannedDataFile(fullPath, relPath, datasetType)) else None;
  }

  /** `DirEntries` grows by one file at a time. */
  lemma DirEntriesSnoc(root: string, files: seq<string>, k: int, dataDir: string, useLlm: bool, host: Host)
    requires 0 <= k < |files|
    ensures var e := FileEntry(root, files[k], dataDir, useLlm, host);
      DirEntries(root, files[..k + 1], dataDir, useLlm, host)
        == DirEntries(root, files[..k], dataDir, useLlm, host) + (if e.Some? then [e.value] else [])
  {
    assert files[..k + 1][..k] == files[..k];
  }

  /** `Scan` grows by one directory at a time. */
  lemma ScanSnoc(walk: seq<WalkedDir>, d: int, dataDir: string, useLlm: bool, host: Host)
    requires 0 <= d < |walk|
    ensures Scan(walk[..d + 1], dataDir, useLlm, host)
      == Scan(walk[..d], dataDir, useLlm, host) + DirEntries(walk[d].root, walk[d].files, dataDir, useLlm, host)
  {
    assert walk[..d + 1][..d] == walk[..d];
  }

  /**
   * `scan_data_folder(data_dir, use_llm)`, given the directories `os.walk(data_dir)`
   * yields: every file that gets a class is recorded, in walk order. The inner
   * loop over one directory's files is `ScanDir`.
   */
  method ScanDataFolder(walk: seq<WalkedDir>, dataDir: string, useLlm: bool, host: Host)
    returns (entries: seq<ScannedDataFile>)
    ensures entries == Scan(walk, dataDir, useLlm, host)
  {
    entries := [];
    for d := 0 to |walk|
      invariant entries == Scan(walk[..d], dataDir, useLlm, host)
    {
      var found := ScanDir(walk[d].root, walk[d].files, dataDir, useLlm, host);
      entries := entries + found;
      ScanSnoc(walk, d, dataDir, useLlm, host);
    }
    assert walk[..|walk|] == walk;
  }

  /** The inner loop of `scan_data_folder`: the entries for the files of one directory, in order. */
  method ScanDir(root: string, files: seq<string>, dataDir: string, useLlm: bool, host: Host)
    returns (entries: seq<ScannedDataFile>)
    ensures entries == DirEntries(root, files, dataDir, useLlm, host)
  {
    entries := [];
    for k := 0 to |files|
      invariant entries == DirEntries(root, files[..k], dataDir, useLlm, host)
    {
      var entry := ClassifyFile(root, files[k], dataDir, useLlm, host);
      DirEntriesSnoc(root, files, k, dataDir, useLlm, host);
      if entry.Some? {
        entries := entries + [entry.value];
      }
    }
    assert files[..|files|] == files;
  }

  /** Every class in the table names a module and a class, separated by a dot. */
  lemma TableLabelsHaveDot()
    ensures forall ext :: ext in ExtToKedroDataset ==> ExtToKedroDataset[ext] != [] && '.' in ExtToKedroDataset[ext]
  {
    assert ExtToKedroDataset[".csv"][6] == '.';
    assert ExtToKedroDataset[".parquet"][6] == '.';
    assert ExtToKedroDataset[".xlsx"][6] == '.';
    assert ExtToKedroDataset[".xls"][6] == '.';
    assert ExtToKedroDataset[".xml"][6] == '.';
    assert ExtToKedroDataset[".yaml"][4] == '.';
    assert ExtToKedroDataset[".yml"][4] == '.';
  }

  /**
   * The table resolves exactly seven extensions; the two Excel extensions share
   * a class, and so do the two YAML extensions.
   */
  lemma TableAliases()
    ensures ExtToKedroDataset.Keys == {".csv", ".parquet", ".xlsx", ".xls", ".xml", ".yaml", ".yml"}
    ensures ExtToKedroDataset[".xlsx"] == ExtToKedroDataset[".xls"] == "pandas.ExcelDataset"
    ensures ExtToKedroDataset[".yaml"] == ExtToKedroDataset[".yml"] == "yaml.YAMLDataset"
  {
  }

  /** The table lookup ignores the letter case of the file name: `report.CSV` is classified as `report.csv` is. */
  lemma RuleTypeIgnoresCase(f: string, g: string)
    requires Lower(f) == Lower(g)
    ensures RuleType(f) == RuleType(g)
  {
    SuffixIgnoresCase(f, g);
  }

  /**
   * A file `base + ext` whose name has one dot, with at least one character on
   * each side of it, is classified by `ext` alone, in lower case: `report.CSV`
   * looks up `.csv`.
   */
  lemma RuleTypeOfPlainName(base: string, ext: string)
    requires base != [] && '.' !in base && '/' !in base
    requires |ext| >= 2 && ext[0] == '.' && '.' !in ext[1..] && '/' !in ext
    ensures RuleType(base + ext).Some? <==> Lower(ext) in ExtToKedroDataset
    ensures RuleType(base + ext).Some? ==> RuleType(base + ext).value == ExtToKedroDataset[Lower(ext)]
  {
    PlainFileName(base, ext);
  }

  /**
   * How a file is classified: a file the table knows keeps the table's class
   * whether or not the fallback is on; an unknown one is left unclassified
   * without the fallback, and with it gets a class exactly when the classifier
   * replies and the reply passes the accept tests.
   */
  lemma DatasetTypeCases(file: string, fullPath: string, useLlm: bool, host: Host)
    ensures var ext := Lower(Suffix(file));
      && (ext in ExtToKedroDataset ==> DatasetType(file, fullPath, useLlm, host) == Some(ExtToKedroDataset[ext]))
      && (ext !in ExtToKedroDataset && !useLlm ==> DatasetType(file, fullPath, useLlm, host) == None)
      && (ext !in ExtToKedroDataset && useLlm ==>
            (DatasetType(file, fullPath, useLlm, host).Some? <==>
               host.llm(file, fullPath).Replied? && Accepts(host.llm(file, fullPath).content)))
  {
    TableLabelsHaveDot();
    var c := host.llm(file, fullPath);
    if c.Replied? {
      ReplyVerdict(c.content);
    }
  }

  /** Every class the scan can give contains a dot; without the fallback it is a class from the table. */
  lemma DatasetTypeLabels(file: string, fullPath: string, useLlm: bool, host: Host)
    requires Truthy(DatasetType(file, fullPath, useLlm, host))
    ensures '.' in DatasetType(file, fullPath, useLlm, host).value
    ensures !useLlm ==> DatasetType(file, fullPath, useLlm, host).value in ExtToKedroDataset.Values
  {
    TableLabelsHaveDot();
    var c := host.llm(file, fullPath);
    if c.Replied? {
      ReplyToLabelShape(c.content);
    }
  }

  /** Facts about every entry of one directory: where it comes from and what its class looks like. */
  predicate WellScanned(e: ScannedDataFile, root: string, files: seq<string>, dataDir: string, useLlm: bool, host: Host)
  {
    exists k :: 0 <= k < |files| && e.fullPath == Join(root, files[k])
      && e.datasetType == DatasetType(files[k], e.fullPath, useLlm, host)
  }

  /**
   * Each entry of a directory comes from one of its files: its path is the file's
   * joined path, its relative path is `relpath` of that, and its class is the
   * file's class, which is present, non-empty and contains a dot.
   */
  lemma {:induction false} DirEntriesProvenance(root: string, files: seq<string>, dataDir: string, useLlm: bool, host: Host)
    ensures forall e :: e in DirEntries(root, files, dataDir, useLlm, host) ==>
      && WellScanned(e, root, files, dataDir, useLlm, host)
      && e.relPath == host.relpath(e.fullPath, dataDir)
      && Truthy(e.datasetType) && '.' in e.datasetType.value
  {
    if files != [] {
      var init := files[..|files| - 1];
      DirEntriesProvenance(root, init, dataDir, useLlm, host);
      var last := files[|files| - 1];
      var fe := FileEntry(root, last, dataDir, useLlm, host);
      forall e | e in DirEntries(root, files, dataDir, useLlm, host)
        ensures WellScanned(e, root, files, dataDir, useLlm, host)
        ensures e.relPath == host.relpath(e.fullPath, dataDir)
        ensures Truthy(e.datasetType) && '.' in e.datasetType.value
      {
        if e in DirEntries(root, init, dataDir, useLlm, host) {
          WellScannedPrefix(e, root, files, dataDir, useLlm, host);
        } else {
          FileEntryProvenance(root, files, |files| - 1, dataDir, useLlm, host);
        }
      }
    }
  }

  /** An entry that comes from one of the first files of a directory comes from one of its files. */
  lemma WellScannedPrefix(e: ScannedDataFile, root: string, files: seq<string>, dataDir: string, useLlm: bool, host: Host)
    requires files != [] && WellScanned(e, root, files[..|files| - 1], dataDir, useLlm, host)
    ensures WellScanned(e, root, files, dataDir, useLlm, host)
  {
    var init := files[..|files| - 1];
    var k :| 0 <= k < |init| && e.fullPath == Join(root, init[k])
      && e.datasetType == DatasetType(init[k], e.fullPath, useLlm, host);
    assert files[k] == init[k];
  }

  /** The entry recorded for the `k`-th file comes from that file and has a class with a dot. */
  lemma FileEntryProvenance(root: string, files: seq<string>, k: int, dataDir: string, useLlm: bool, host: Host)
    requires 0 <= k < |files|
    ensures var fe := FileEntry(root, files[k], dataDir, useLlm, host);
      fe.Some? ==>
        && WellScanned(fe.value, root, files, dataDir, useLlm, host)
        && fe.value.relPath == host.relpath(fe.value.fullPath, dataDir)
        && Truthy(fe.value.datasetType) && '.' in fe.value.datasetType.value
  {
    var fe := FileEntry(root, files[k], dataDir, useLlm, host);
    if fe.Some? {
      DatasetTypeLabels(files[k], fe.value.fullPath, useLlm, host);
    }
  }

  /** Every entry of a scan has a present, non-empty class containing a dot, and its relative path is `relpath` of its path. */
  lemma {:induction false} ScanEntriesTyped(walk: seq<WalkedDir>, dataDir: string, useLlm: bool, host: Host)
    ensures forall e :: e in Scan(walk, dataDir, useLlm, host) ==>
      && Truthy(e.datasetType) && '.' in e.datasetType.value
      && e.relPath == host.relpath(e.fullPath, dataDir)
  {
    if walk != [] {
      ScanEntriesTyped(walk[..|walk| - 1], dataDir, useLlm, host);
      var d := walk[|walk| - 1];
      DirEntriesProvenance(d.root, d.files, dataDir, useLlm, host);
    }
  }

  /** Every entry of a scan comes from a file of one of the walked directories. */
  lemma {:induction false} ScanProvenance(walk: seq<WalkedDir>, dataDir: string, useLlm: bool, host: Host)
    ensures forall e :: e in Scan(walk, dataDir, useLlm, host) ==>
      exists d :: 0 <= d < |walk| && WellScanned(e, walk[d].root, walk[d].files, dataDir, useLlm, host)
  {
    if walk != [] {
      var n := |walk| - 1;
      var init := walk[..n];
      ScanProvenance(init, dataDir, useLlm, host);
      DirEntriesProvenance(walk[n].root, walk[n].files, dataDir, useLlm, host);
      forall e | e in Scan(walk, dataDir, useLlm, host)
        ensures exists d :: 0 <= d < |walk| && WellScanned(e, walk[d].root, walk[d].files, dataDir, useLlm, host)
      {
        if e in Scan(init, dataDir, useLlm, host) {
          var d :| 0 <= d < n && WellScanned(e, init[d].root, init[d].files, dataDir, useLlm, host);
          assert init[d] == walk[d];
        } else {
          assert WellScanned(e, walk[n].root, walk[n].files, dataDir, useLlm, host);
        }
      }
    }
  }

  /**
   * Without the fallback, every entry of a scan is a walked file whose
   * lower-cased extension is in the table, recorded with the table's class:
   * a file with an unknown extension is never recorded.
   */
  lemma ScanWithoutLlmOnlyTableFiles(walk: seq<WalkedDir>, dataDir: string, host: Host)
    ensures forall e :: e in Scan(walk, dataDir, false, host) ==>
      exists d, k ::
        && 0 <= d < |walk| && 0 <= k < |walk[d].files|
        && e.fullPath == Join(walk[d].root, walk[d].files[k])
        && Lower(Suffix(walk[d].files[k])) in ExtToKedroDataset
        && e.datasetType == Some(ExtToKedroDataset[Lower(Suffix(walk[d].files[k]))])
  {
    ScanProvenance(walk, dataDir, false, host);
    ScanEntriesTyped(walk, dataDir, false, host);
    forall e | e in Scan(walk, dataDir, false, host)
      ensures exists d, k ::
        && 0 <= d < |walk| && 0 <= k < |walk[d].files|
        && e.fullPath == Join(walk[d].root, walk[d].files[k])
        && Lower(Suffix(walk[d].files[k])) in ExtToKedroDataset
        && e.datasetType == Some(ExtToKedroDataset[Lower(Suffix(walk[d].files[k]))])
    {
      var d :| 0 <= d < |walk| && WellScanned(e, walk[d].root, walk[d].files, dataDir, false, host);
      var files := walk[d].files;
      var k :| 0 <= k < |files| && e.fullPath == Join(walk[d].root, files[k])
        && e.datasetType == DatasetType(files[k], e.fullPath, false, host);
      DatasetTypeCases(files[k], e.fullPath, false, host);
    }
  }

  /** Without the fallback, the classifier is never consulted: any two hosts with the same `relpath` give the same scan. */
  lemma {:induction false} ScanWithoutLlmIgnoresOracle(walk: seq<WalkedDir>, dataDir: string, h1: Host, h2: Host)
    requires h1.relpath == h2.relpath
    ensures Scan(walk, dataDir, false, h1) == Scan(walk, dataDir, false, h2)
  {
    if walk != [] {
      ScanWithoutLlmIgnoresOracle(walk[..|walk| - 1], dataDir, h1, h2);
      var d := walk[|walk| - 1];
      DirWithoutLlmIgnoresOracle(d.root, d.files, dataDir, h1, h2);
    }
  }

  /** `ScanWithoutLlmIgnoresOracle` for one directory. */
  lemma {:induction false} DirWithoutLlmIgnoresOracle(root: string, files: seq<string>, dataDir: string, h1: Host, h2: Host)
    requires h1.relpath == h2.relpath
    ensures DirEntries(root, files, dataDir, false, h1) == DirEntries(root, files, dataDir, false, h2)
  {
    if files != [] {
      DirWithoutLlmIgnoresOracle(root, files[..|files| - 1], dataDir, h1, h2);
    }
  }

  /** A classifier that always raises turns the fallback scan into the table-only scan. */
  lemma {:induction false} ScanWithFailingLlm(walk: seq<WalkedDir>, dataDir: string, host: Host)
    requires forall file, path :: host.llm(file, path) == Raised
    ensures Scan(walk, dataDir, true, host) == Scan(walk, dataDir, false, host)
  {
    if walk != [] {
      ScanWithFailingLlm(walk[..|walk| - 1], dataDir, host);
      var d := walk[|walk| - 1];
      DirWithFailingLlm(d.root, d.files, dataDir, host);
    }
  }

  /** `ScanWithFailingLlm` for one directory. */
  lemma {:induction false} DirWithFailingLlm(root: string, files: seq<string>, dataDir: string, host: Host)
    requires forall file, path :: host.llm(file, path) == Raised
    ensures DirEntries(root, files, dataDir, true, host) == DirEntries(root, files, dataDir, false, host)
  {
    if files != [] {
      DirWithFailingLlm(root, files[..|files| - 1], dataDir, host);
    }
  }

  /** Number of files a walk reports. */
  function FileCount(walk: seq<WalkedDir>): nat
  {
    if walk == [] then 0 else FileCount(walk[..|walk| - 1]) + |walk[|walk| - 1].files|
  }

  /** A directory records at most one entry per file, and the fallback only adds entries. */
  lemma {:induction false} DirEntriesBounds(root: string, files: seq<string>, dataDir: string, host: Host)
    ensures |DirEntries(root, files, dataDir, false, host)| <= |DirEntries(root, files, dataDir, true, host)| <= |files|
  {
    if files != [] {
      DirEntriesBounds(root, files[..|files| - 1], dataDir, host);
    }
  }

  /** A scan records at most one entry per file, and turning the fallback on never loses an entry. */
  lemma {:induction false} ScanBounds(walk: seq<WalkedDir>, dataDir: string, host: Host)
    ensures |Scan(walk, dataDir, false, host)| <= |Scan(walk, dataDir, true, host)| <= FileCount(walk)
  {
    if walk != [] {
      ScanBounds(walk[..|walk| - 1], dataDir, host);
      var d := walk[|walk| - 1];
      DirEntriesBounds(d.root, d.files, dataDir, host);
    }
  }

  /** One entry of the generated catalog: the dataset class and the file path under `data/`. */
  datatype CatalogEntry = CatalogEntry(datasetType: string, filepath: string)

  /** The catalog name of a file: the stem of its relative path, lower-cased. */
  function CatalogName(relPath: string): string
  {
    Lower(Stem(relPath))
  }

  /** The catalog path of a file: its relative path with backslashes turned into slashes, under `data/`. */
  function CatalogPath(relPath: string): string
  {
    "data/" + ReplaceChar(relPath, '\\', '/')
  }

  /**
   * The catalog path is `data/` followed by the relative path, character for
   * character, except that each backslash becomes a slash; no backslash is left.
   */
  lemma CatalogPathShape(relPath: string)
    ensures var r := CatalogPath(relPath);
      && |r| == 5 + |relPath| && r[..5] == "data/"
      && '\\' !in r
      && forall i :: 0 <= i < |relPath| ==> r[5 + i] == (if relPath[i] == '\\' then '/' else relPath[i])
  {
  }

  /** The catalog entry for a scanned file that has a class. */
  function EntryFor(e: ScannedDataFile): CatalogEntry
    requires e.datasetType.Some?
  {
    CatalogEntry(e.datasetType.value, CatalogPath(e.relPath))
  }

  /** The catalog built from a list of scanned files: files without a class are skipped; a later file overwrites an earlier one with the same name. */
  function Catalog(fileInfo: seq<ScannedDataFile>): map<string, CatalogEntry>
  {
    if fileInfo == [] then map[]
    else
      var e := fileInfo[|fileInfo| - 1];
      var c := Catalog(fileInfo[..|fileInfo| - 1]);
      if e.datasetType.None? then c else c[CatalogName(e.relPath) := EntryFor(e)]
  }

  /** `to_catalog_entries(file_info)`: the catalog, one entry per name. */
  method ToCatalogEntries(fileInfo: seq<ScannedDataFile>) returns (catalog: map<string, CatalogEntry>)
    ensures catalog == Catalog(fileInfo)
  {
    catalog := map[];
    for i := 0 to |fileInfo|
      invariant catalog == Catalog(fileInfo[..i])
    {
      var entry := fileInfo[i];
      var filename := Lower(Stem(entry.relPath));
      var datasetType := entry.datasetType;
      var relPath := ReplaceChar(entry.relPath, '\\', '/');
      assert fileInfo[..i + 1][..i] == fileInfo[..i];
      if datasetType.None? {
        continue;
      }
      catalog := catalog[filename := CatalogEntry(datasetType.value, "data/" + relPath)];
    }
    assert fileInfo[..|fileInfo|] == fileInfo;
  }

  /** The scanned file has a class and the catalog name `name`. */
  predicate HasName(e: ScannedDataFile, name: string)
  {
    e.datasetType.Some? && CatalogName(e.relPath) == name
  }

  /** A name is in the catalog exactly when some file with a class has it. */
  lemma CatalogKeys(fileInfo: seq<ScannedDataFile>, name: string)
    ensures name in Catalog(fileInfo) <==> exists i :: 0 <= i < |fileInfo| && HasName(fileInfo[i], name)
  {
    if name in Catalog(fileInfo) {
      var i := CatalogKeyWriter(fileInfo, name);
    }
    forall i | 0 <= i < |fileInfo| && HasName(fileInfo[i], name)
      ensures name in Catalog(fileInfo)
    {
      CatalogKeyPresent(fileInfo, name, i);
    }
  }

  /** A file with a class puts its name in the catalog. */
  lemma {:induction false} CatalogKeyPresent(fileInfo: seq<ScannedDataFile>, name: string, i: int)
    requires 0 <= i < |fileInfo| && HasName(fileInfo[i], name)
    ensures name in Catalog(fileInfo)
  {
    var n := |fileInfo| - 1;
    CatalogKeyStep(fileInfo, name);
    if i < n {
      assert fileInfo[..n][i] == fileInfo[i];
      CatalogKeyPresent(fileInfo[..n], name, i);
    }
  }

  /** Every name in the catalog was put there by a file with a class; `i` is one such file. */
  lemma {:induction false} CatalogKeyWriter(fileInfo: seq<ScannedDataFile>, name: string) returns (i: int)
    requires name in Catalog(fileInfo)
    ensures 0 <= i < |fileInfo| && HasName(fileInfo[i], name)
  {
    var n := |fileInfo| - 1;
    CatalogKeyStep(fileInfo, name);
    if HasName(fileInfo[n], name) {
      i := n;
    } else {
      i := CatalogKeyWriter(fileInfo[..n], name);
      assert fileInfo[..n][i] == fileInfo[i];
    }
  }

  /** One more file adds its name to the catalog's keys, if it has a class, and removes none. */
  lemma CatalogKeyStep(fileInfo: seq<ScannedDataFile>, name: string)
    requires fileInfo != []
    ensures name in Catalog(fileInfo)
      <==> name in Catalog(fileInfo[..|fileInfo| - 1]) || HasName(fileInfo[|fileInfo| - 1], name)
  {
  }

  /**
   * Last writer wins: the catalog entry for a name is that of the last file
   * with a class and that name; earlier files with the name are overwritten.
   */
  lemma {:induction false} CatalogLastWriter(fileInfo: seq<ScannedDataFile>, name: string, i: int)
    requires 0 <= i < |fileInfo| && HasName(fileInfo[i], name)
    requires forall j :: i < j < |fileInfo| ==> !HasName(fileInfo[j], name)
    ensures name in Catalog(fileInfo) && Catalog(fileInfo)[name] == EntryFor(fileInfo[i])
  {
    var n := |fileInfo| - 1;
    if i < n {
      var init := fileInfo[..n];
      assert forall j :: i < j < n ==> init[j] == fileInfo[j];
      CatalogLastWriter(init, name, i);
      assert !HasName(fileInfo[n], name);
    }
  }

  /** Number of scanned files that have a class. */
  function TypedCount(fileInfo: seq<ScannedDataFile>): nat
  {
    if fileInfo == [] then 0
    else TypedCount(fileInfo[..|fileInfo| - 1]) + (if fileInfo[|fileInfo| - 1].datasetType.Some? then 1 else 0)
  }

  /** The catalog has at most one entry per file with a class; fewer when names collide. */
  lemma {:induction false} CatalogSize(fileInfo: seq<ScannedDataFile>)
    ensures |Catalog(fileInfo)| <= TypedCount(fileInfo)
  {
    if fileInfo != [] {
      var init := fileInfo[..|fileInfo| - 1];
      CatalogSize(init);
      var e := fileInfo[|fileInfo| - 1];
      if e.datasetType.Some? {
        var c := Catalog(init);
        var k := CatalogName(e.relPath);
        assert c[k := EntryFor(e)].Keys == c.Keys + {k};
      }
    }
  }

  /** Every catalog name is lower-case, and every path starts with `data/` and has no backslash. */
  lemma {:induction false} CatalogWellFormed(fileInfo: seq<ScannedDataFile>)
    ensures forall name :: name in Catalog(fileInfo) ==>
      && Lower(name) == name
      && |Catalog(fileInfo)[name].filepath| >= 5 && Catalog(fileInfo)[name].filepath[..5] == "data/"
      && '\\' !in Catalog(fileInfo)[name].filepath
  {
    if fileInfo != [] {
      CatalogWellFormed(fileInfo[..|fileInfo| - 1]);
      LowerIdempotent(Stem(fileInfo[|fileInfo| - 1].relPath));
      CatalogPathShape(fileInfo[|fileInfo| - 1].relPath);
    }
  }

  /** Every scanned file's name appears in the catalog built from the scan. */
  lemma ScanIsCatalogued(walk: seq<WalkedDir>, dataDir: string, useLlm: bool, host: Host)
    ensures var entries := Scan(walk, dataDir, useLlm, host);
      forall i :: 0 <= i < |entries| ==> CatalogName(entries[i].relPath) in Catalog(entries)
  {
    var entries := Scan(walk, dataDir, useLlm, host);
    ScanEntriesTyped(walk, dataDir, useLlm, host);
    forall i | 0 <= i < |entries| ensures CatalogName(entries[i].relPath) in Catalog(entries) {
      assert entries[i] in entries;
      CatalogKeys(entries, CatalogName(entries[i].relPath));
    }
  }

  /**
   * Files that differ only in their extension share a catalog name, the
   * lower-cased base: `sales.csv` and `Sales.XLSX` are both `sales`.
   */
  lemma ExtensionsShareName(base: string, ext1: string, ext2: string)
    requires base != [] && '.' !in base && '/' !in base
    requires |ext1| >= 2 && ext1[0] == '.' && '.' !in ext1[1..] && '/' !in ext1
    requires |ext2| >= 2 && ext2[0] == '.' && '.' !in ext2[1..] && '/' !in ext2
    ensures CatalogName(base + ext1) == CatalogName(base + ext2) == Lower(base)
  {
    PlainFileName(base, ext1);
    PlainFileName(base, ext2);
  }

  /**
   * Two files with the same catalog name collide, for instance `sales.csv`
   * followed by `sales.xlsx` (see `ExtensionsShareName`): the catalog keeps a single
   * entry, the later file's.
   */
  lemma SameNameCollides(e1: ScannedDataFile, e2: ScannedDataFile)
    requires e1.datasetType.Some? && e2.datasetType.Some?
    requires CatalogName(e1.relPath) == CatalogName(e2.relPath)
    ensures Catalog([e1, e2]) == map[CatalogName(e2.relPath) := EntryFor(e2)]
  {
    assert [e1, e2][..1] == [e1];
    assert [e1][..0] == [];
    assert Catalog([e1]) == map[][CatalogName(e1.relPath) := EntryFor(e1)];
  }
}
