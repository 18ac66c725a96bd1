/** The main window's bookkeeping outside any project: the list of recently
    opened projects, the settings that newer versions add to an older
    configuration, the pruning of old project backups, and the `date|path`
    entries used to open a project. The file system is given: the set of paths
    that exist, the listing of a directory and the current time are
    parameters, and files are fields holding their lines. */
module QualCoderApp {
  import opened Strings
  import opened Sorting
  import opened Store

  // ---------------------------------------------------------------------------
  // `date|path` entries

  /** The project path of a recent-projects entry: the entry itself in the old
      format without a date, the part after `|` in the `date|path` format, and
      nothing when the entry has more than one `|`. */
  function ProjectPath(entry: string): string {
    var parts := Split(entry, "|");
    if |parts| == 1 then parts[0] else if |parts| == 2 then parts[1] else ""
  }

  predicate NoBar(s: string) {
    forall k :: 0 <= k < |s| ==> s[k] != '|'
  }

  /** An old-format entry is its own path. */
  lemma ProjectPathUndated(path: string)
    requires NoBar(path)
    ensures ProjectPath(path) == path
  {
    SplitWithout(path, '|');
  }

  /** The path of a `date|path` entry is the path it was made from. */
  lemma ProjectPathDated(date: string, path: string)
    requires NoBar(date) && NoBar(path)
    ensures ProjectPath(date + "|" + path) == path
  {
    SplitAtFirst(date, '|', path);
    SplitWithout(path, '|');
  }

  /** An entry with two or more `|` has no path. */
  lemma ProjectPathOfMalformed(entry: string)
    requires CountChar(entry, '|') >= 2
    ensures ProjectPath(entry) == ""
  {
    SplitCount(entry, '|');
  }

  /** A project path holds no `|`, so splitting it again gives it back: the
      path the command line passes on to `open_project` is split once more to
      no effect. */
  lemma ProjectPathIdempotent(entry: string)
    ensures NoBar(ProjectPath(entry))
    ensures ProjectPath(ProjectPath(entry)) == ProjectPath(entry)
  {
    var parts := Split(entry, "|");
    SplitPartsAvoidSep(entry, "|");
    var p := ProjectPath(entry);
    forall k | 0 <= k < |p| ensures p[k] != '|' {
      if |parts| == 1 || |parts| == 2 {
        var i := |parts| - 1;
        assert p == parts[i];
        if p[k] == '|' {
          assert p[k..k + 1] == "|";
          assert OccursAt(parts[i], "|", k);
        }
      }
    }
    ProjectPathUndated(p);
  }

  /** The path `open_project` connects to for the entry it is given, if any:
      the entry must be longer than 3 characters and its path end in `.qda`. */
  function ProjectToOpen(path: string): Option<string> {
    var projPath := ProjectPath(path);
    if |path| > 3 && Slice(projPath, -4, |projPath|) == ".qda" then Some(projPath) else None
  }

  /** A project is opened exactly when the entry's path ends in `.qda`; the
      length test adds nothing. */
  lemma ProjectToOpenIff(path: string)
    ensures ProjectToOpen(path).Some? <==> EndsWith(ProjectPath(path), ".qda")
    ensures ProjectToOpen(path).Some? ==> ProjectToOpen(path).value == ProjectPath(path)
  {
    var p := ProjectPath(path);
    if EndsWith(p, ".qda") {
      ProjectPathIsPart(path);
    }
    if |p| < 4 {
      assert |Slice(p, -4, |p|)| < 4;
    }
  }

  /** A project path is no longer than its entry. */
  lemma ProjectPathIsPart(entry: string)
    ensures |ProjectPath(entry)| <= |entry|
  {
    var parts := Split(entry, "|");
    if |parts| == 1 || |parts| == 2 {
      SplitPieceAt(entry, "|", parts, |parts| - 1);
    }
  }

  /** Starting the program with an entry opens what the menu would open for
      that entry. */
  lemma StartupOpensEntry(entry: string)
    ensures ProjectToOpen(ProjectPath(entry)) == ProjectToOpen(entry)
  {
    ProjectPathIdempotent(entry);
    ProjectToOpenIff(entry);
    ProjectToOpenIff(ProjectPath(entry));
  }

  // ---------------------------------------------------------------------------
  // Recent projects

  /** The entries whose project path exists, in file order. */
  function ExistingEntries(lines: seq<string>, existing: set<string>): (r: seq<string>)
    ensures forall e :: e in r <==> e in lines && ProjectPath(e) in existing
  {
    if |lines| == 0 then []
    else
      var last := lines[|lines| - 1];
      assert lines == lines[..|lines| - 1] + [last];
      ExistingEntries(lines[..|lines| - 1], existing) + (if ProjectPath(last) in existing then [last] else [])
  }

  /** The project paths of a list of entries. */
  function Paths(entries: seq<string>): (r: seq<string>)
    ensures |r| == |entries| && forall i :: 0 <= i < |entries| ==> r[i] == ProjectPath(entries[i])
  {
    seq(|entries|, i requires 0 <= i < |entries| => ProjectPath(entries[i]))
  }

  /** The entries of `s`, each kept unless an earlier kept entry has the same
      project path. */
  function Dedup(s: seq<string>): seq<string> {
    if |s| == 0 then []
    else
      var front := Dedup(s[..|s| - 1]);
      if ProjectPath(s[|s| - 1]) in Paths(front) then front else front + [s[|s| - 1]]
  }

  /** Every kept entry comes from `s`, no project is kept twice, and every
      project of `s` is kept. */
  lemma {:induction false} DedupMembers(s: seq<string>)
    ensures forall e :: e in Dedup(s) ==> e in s
    ensures forall i, j :: 0 <= i < j < |Dedup(s)| ==> ProjectPath(Dedup(s)[i]) != ProjectPath(Dedup(s)[j])
    ensures forall e :: e in s ==> ProjectPath(e) in Paths(Dedup(s))
  {
    if |s| > 0 {
      var n := |s| - 1;
      DedupMembers(s[..n]);
      assert s == s[..n] + [s[n]];
      var front := Dedup(s[..n]);
      if ProjectPath(s[n]) !in Paths(front) {
        var r := front + [s[n]];
        assert Paths(r) == Paths(front) + [ProjectPath(s[n])];
      }
    }
  }

  /** Each kept entry stands somewhere in `s`. */
  lemma DedupIndices(s: seq<string>)
    ensures forall i :: 0 <= i < |Dedup(s)| ==> exists k :: 0 <= k < |s| && s[k] == Dedup(s)[i]
  {
    DedupMembers(s);
    forall i | 0 <= i < |Dedup(s)| ensures exists k :: 0 <= k < |s| && s[k] == Dedup(s)[i] {
      assert Dedup(s)[i] in Dedup(s);
    }
  }

  /** Entries sorted newest first stay sorted when deduplicated. */
  lemma {:induction false} DedupSorted(s: seq<string>)
    requires Sorted(s, true)
    ensures Sorted(Dedup(s), true)
  {
    if |s| > 0 {
      var n := |s| - 1;
      var front := Dedup(s[..n]);
      assert Sorted(s[..n], true);
      DedupSorted(s[..n]);
      DedupIndices(s[..n]);
      forall i | 0 <= i < |front| ensures InOrder(front[i], s[n], true) {
        var k :| 0 <= k < n && s[..n][k] == front[i];
        assert s[k] == front[i];
      }
    }
  }

  /** From entries sorted newest first, the entry kept for each project is its
      newest. */
  lemma {:induction false} DedupKeepsNewest(s: seq<string>)
    requires Sorted(s, true)
    ensures forall i, j :: 0 <= i < |Dedup(s)| && 0 <= j < |s| && ProjectPath(s[j]) == ProjectPath(Dedup(s)[i]) ==>
      InOrder(Dedup(s)[i], s[j], true)
  {
    if |s| > 0 {
      var n := |s| - 1;
      var front := Dedup(s[..n]);
      var r := Dedup(s);
      assert Sorted(s[..n], true);
      DedupKeepsNewest(s[..n]);
      DedupMembers(s[..n]);
      DedupIndices(s[..n]);
      forall i, j | 0 <= i < |r| && 0 <= j < |s| && ProjectPath(s[j]) == ProjectPath(r[i])
        ensures InOrder(r[i], s[j], true)
      {
        if i < |front| {
          assert r[i] == front[i];
          if j < n {
            assert s[..n][j] == s[j];
          } else {
            var k :| 0 <= k < n && s[..n][k] == front[i];
            assert s[k] == front[i];
          }
        } else {
          assert r[i] == s[n];
          if j == n {
            BelowIrreflexive(s[n]);
          }
        }
      }
    }
  }

  /** The entries `read_previous_project_paths` returns: those whose project
      exists, newest first, one per project. */
  function PreviousProjects(lines: seq<string>, existing: set<string>): seq<string> {
    Dedup(Sort(ExistingEntries(lines, existing), true))
  }

  /** What is written of a list of entries: the first ten lines. */
  function FirstTen(entries: seq<string>): (r: seq<string>)
    ensures |r| <= 10 && |r| <= |entries| && r == entries[..|r|]
    ensures |entries| >= 10 ==> |r| == 10
  {
    if |entries| <= 10 then entries else entries[..10]
  }

  /** The recent-projects file after `append_recent_project(path)` at time
      `now`: unchanged but for the rewrite by the read when the path is empty
      or is the newest entry's path, the dated entry alone when no entry
      remains, and otherwise all entries with the dated one, sorted oldest
      first, cut to ten lines. */
  function AppendedFile(lines: seq<string>, existing: set<string>, path: string, now: string): seq<string> {
    if path == "" then lines
    else
      var result := PreviousProjects(lines, existing);
      var dated := now + "|" + path;
      if result == [] then [dated]
      else if path != ProjectPath(result[0]) then FirstTen(Sort(result + [dated], false))
      else FirstTen(result)
  }

  /** When ten projects are listed, a newly opened project is written last of
      eleven and cut off: it is not in the file. */
  lemma AppendDropsNewest(lines: seq<string>, existing: set<string>, path: string, now: string)
    requires path != ""
    requires var result := PreviousProjects(lines, existing);
      |result| >= 10 && path != ProjectPath(result[0])
      && forall e :: e in result ==> Below(e, now + "|" + path)
    ensures now + "|" + path !in AppendedFile(lines, existing, path, now)
  {
    var result := PreviousProjects(lines, existing);
    var dated := now + "|" + path;
    var sorted := Sort(result + [dated], false);
    assert AppendedFile(lines, existing, path, now) == sorted[..10];
    GreatestLast(result, dated);
    assert sorted[..10] == sorted[..|sorted| - 1][..10];
  }

  /** The file as intended: the entries with the dated one, newest first, cut
      to ten lines. */
  function AppendedFileIntended(lines: seq<string>, existing: set<string>, path: string, now: string)
    : seq<string>
  {
    if path == "" then lines
    else
      var result := PreviousProjects(lines, existing);
      var dated := now + "|" + path;
      if result == [] then [dated]
      else if path != ProjectPath(result[0]) then FirstTen(Sort(result + [dated], true))
      else FirstTen(result)
  }

  /** As intended, a newly opened project is the first line of the file. */
  lemma AppendIntendedKeepsNewest(lines: seq<string>, existing: set<string>, path: string, now: string)
    requires path != ""
    requires var result := PreviousProjects(lines, existing);
      (result == [] || path != ProjectPath(result[0]))
      && forall e :: e in result ==> Below(e, now + "|" + path)
    ensures var file := AppendedFileIntended(lines, existing, path, now);
      |file| > 0 && file[0] == now + "|" + path
  {
    var result := PreviousProjects(lines, existing);
    if result != [] {
      GreatestFirst(result, now + "|" + path);
    }
  }

  // ---------------------------------------------------------------------------
  // Settings added by newer versions

  /** A setting's value in the configuration. */
  datatype Setting = Number(n: int) | Text(s: string)

  /** The settings a configuration must have, in the order they are checked
      (two of them listed twice). */
  function SettingKeys(): seq<string> {
    ["mainwindow_w", "mainwindow_h", "dialogcodetext_w", "dialogcodetext_h",
     "dialogcodeimage_w", "dialogcodeimage_h", "dialogviewimage_w", "dialogviewimage_h",
     "dialogreportcodes_w", "dialogreportcodes_h", "dialogmanagefiles_w", "dialogmanagefiles_h",
     "dialogjournals_w", "dialogjournals_h", "dialogsql_w", "dialogsql_h",
     "dialogcases_w", "dialogcases_h", "dialogcasefilemanager_w", "dialogcasefilemanager_h",
     "dialogmanagesttributes_w", "dialogmanageattributes_h",
     "dialogcodetext_splitter0", "dialogcodetext_splitter1", "dialogcodeimage_splitter0",
     "dialogcodeimage_splitter1", "dialogreportcodes_splitter0", "dialogreportcodes_splitter1",
     "dialogjournals_splitter0", "dialogjournals_splitter1", "dialogsql_splitter_h0",
     "dialogsql_splitter_h1", "dialogsql_splitter_v0", "dialogsql_splitter_v1",
     "dialogcases_splitter0", "dialogcases_splitter1", "dialogreportcodefrequencies_w",
     "dialogreportcodefrequencies_h", "mainwindow_w", "mainwindow_h",
     "dialogcasefilemanager_splitter0", "dialogcasefilemanager_splitter1", "timestampformat",
     "speakernameformat", "video_w", "video_h", "dialogcodeav_w", "dialogcodeav_h",
     "codeav_abs_pos_x", "codeav_abs_pos_y", "viewav_abs_pos_x", "viewav_abs_pos_y",
     "dialogviewav_w", "dialogviewav_h", "viewav_video_pos_x", "viewav_video_pos_y",
     "codeav_video_pos_x", "codeav_video_pos_y",
     "bookmark_file_id", "bookmark_pos", "dialogcodecrossovers_w", "dialogcodecrossovers_h",
     "dialogcodecrossovers_splitter0", "dialogcodecrossovers_splitter1"]
  }

  /** The value a missing setting is given. */
  function DefaultSetting(key: string): Setting {
    if key == "timestampformat" then Text("[hh.mm.ss]")
    else if key == "speakernameformat" then Text("[]")
    else Number(0)
  }

  /** The configuration with each of `keys` it lacks added, in order. */
  function Completed(data: map<string, Setting>, keys: seq<string>): map<string, Setting> {
    if |keys| == 0 then data
    else
      var before := Completed(data, keys[..|keys| - 1]);
      var key := keys[|keys| - 1];
      if key in before then before else before[key := DefaultSetting(key)]
  }

  /** Completing keeps every setting there was, adds every key missing with
      its default, and adds nothing else. */
  lemma {:induction false} CompletedFacts(data: map<string, Setting>, keys: seq<string>)
    ensures Completed(data, keys).Keys == data.Keys + set k | k in keys
    ensures forall k :: k in data ==> Completed(data, keys)[k] == data[k]
    ensures forall k :: k in keys && k !in data ==> Completed(data, keys)[k] == DefaultSetting(k)
  {
    if |keys| > 0 {
      var n := |keys| - 1;
      CompletedFacts(data, keys[..n]);
      assert keys == keys[..n] + [keys[n]];
      assert (set k | k in keys) == (set k | k in keys[..n]) + {keys[n]};
    }
  }

  /** The configuration grows, and so is written, exactly when a key is
      missing. */
  lemma CompletedGrowsIff(data: map<string, Setting>, keys: seq<string>)
    ensures |Completed(data, keys)| > |data| <==> exists k :: k in keys && k !in data
  {
    CompletedFacts(data, keys);
    var c := Completed(data, keys);
    assert c.Keys == data.Keys + (c.Keys - data.Keys);
    assert |c.Keys| == |data.Keys| + |c.Keys - data.Keys|;
    if exists k :: k in keys && k !in data {
      var k :| k in keys && k !in data;
      assert k in c.Keys - data.Keys;
    } else {
      assert c.Keys - data.Keys == {};
    }
  }

  /** Completing twice adds nothing the second time. */
  lemma CompletedIdempotent(data: map<string, Setting>, keys: seq<string>)
    ensures Completed(Completed(data, keys), keys) == Completed(data, keys)
  {
    var c := Completed(data, keys);
    CompletedFacts(data, keys);
    CompletedFacts(c, keys);
  }

  // ---------------------------------------------------------------------------
  // Backups

  /** The parts of a project path the backup names are made from: the
      directory (with its closing `/`) and the name of the project without
      `.qda`. */
  function BackupDirectory(projectPath: string): string {
    var parts := Split(projectPath, "/");
    Slice(projectPath, 0, -|parts[|parts| - 1]|)
  }

  function BackupPrefix(projectPath: string): string {
    var parts := Split(projectPath, "/");
    Slice(parts[|parts| - 1], 0, -4) + "_BKUP_"
  }

  /** `f[0:lenname] == projectname_and_bkup and f[-4:] == ".qda"`. */
  predicate IsBackup(f: string, prefix: string) {
    Slice(f, 0, |prefix|) == prefix && Slice(f, -4, |f|) == ".qda"
  }

  /** The name test is a prefix and a suffix test. */
  lemma IsBackupIff(f: string, prefix: string)
    ensures IsBackup(f, prefix) <==> StartsWith(f, prefix) && EndsWith(f, ".qda")
  {
    if |f| < |prefix| {
      assert |Slice(f, 0, |prefix|)| < |prefix|;
    }
    if |f| < 4 {
      assert |Slice(f, -4, |f|)| < 4;
    }
  }

  /** The backups of the project among the directory's entries, in listing
      order. */
  function Backups(listing: seq<string>, prefix: string): (r: seq<string>)
    ensures forall f :: f in r <==> f in listing && IsBackup(f, prefix)
    ensures multiset(r) <= multiset(listing)
  {
    if |listing| == 0 then []
    else
      var last := listing[|listing| - 1];
      assert listing == listing[..|listing| - 1] + [last];
      Backups(listing[..|listing| - 1], prefix) + (if IsBackup(last, prefix) then [last] else [])
  }

  /** The backups to delete: all but the five with the greatest names. */
  function BackupsToRemove(listing: seq<string>, prefix: string): seq<string> {
    var backups := Sort(Backups(listing, prefix), true);
    if |backups| > 5 then backups[5..] else []
  }

  /** Five backups are kept when there are more, and each one removed is a
      backup no newer than any kept one. */
  lemma BackupsToRemoveFacts(listing: seq<string>, prefix: string)
    ensures var backups := Backups(listing, prefix);
      var toRemove := BackupsToRemove(listing, prefix);
      |toRemove| == (if |backups| > 5 then |backups| - 5 else 0)
      && (forall f :: f in toRemove ==> f in listing && StartsWith(f, prefix) && EndsWith(f, ".qda"))
      && multiset(toRemove) <= multiset(backups)
      && (forall f, g :: f in toRemove && g in backups && g !in toRemove ==> !Below(g, f))
  {
    var backups := Backups(listing, prefix);
    var sorted := Sort(backups, true);
    if |sorted| > 5 {
      DropFromPermutation(backups, sorted, 5);
      forall f | f in sorted[5..] ensures StartsWith(f, prefix) && EndsWith(f, ".qda") {
        IsBackupIff(f, prefix);
      }
      DroppedNotAbove(backups, sorted, 5);
    }
  }

  // ---------------------------------------------------------------------------
  // The application

  class App {
    var recentFile: seq<string>
    var config: map<string, Setting>
    var projectPath: string

    constructor (recentFile: seq<string>, config: map<string, Setting>)
      ensures this.recentFile == recentFile && this.config == config && projectPath == ""
    {
      this.recentFile := recentFile;
      this.config := config;
      projectPath := "";
    }

    /** Reads the recent projects, drops those whose project no longer exists,
        keeps the newest entry of each project, rewrites the file with the
        first ten, and returns them all. */
    method ReadPreviousProjectPaths(existing: set<string>) returns (result: seq<string>)
      modifies this`recentFile
      ensures result == PreviousProjects(old(recentFile), existing)
      ensures recentFile == FirstTen(result)
    {
      var interim := KeepExisting(recentFile, existing);
      interim := Sort(interim, true);
      result := KeepNewestPerProject(interim);
      recentFile := WriteLines(result);
    }

    /** Records that the project at `path` was opened at `now`. */
    method AppendRecentProject(path: string, now: string, existing: set<string>)
      modifies this`recentFile
      ensures recentFile == AppendedFile(old(recentFile), existing, path, now)
    {
      if path == "" {
        return;
      }
      var result := ReadPreviousProjectPaths(existing);
      var datedPath := now + "|" + path;
      if result == [] {
        recentFile := [datedPath];
        return;
      }
      var projPath := ProjectPath(result[0]);
      if path != projPath {
        result := result + [datedPath];
        result := Sort(result, false);
        recentFile := WriteLines(result);
      }
    }

    /** Adds every setting the configuration lacks, and writes the
        configuration when it grew. */
    method CheckAndAddAdditionalSettings(data: map<string, Setting>) returns (result: map<string, Setting>)
      modifies this`config
      ensures result == Completed(data, SettingKeys())
      ensures config == if |result| > |data| then result else old(config)
    {
      var dictLen := |data|;
      result := AddMissingSettings(data, SettingKeys());
      if |result| > dictLen {
        config := result;
      }
    }

    /** The backups of the open project to delete, given the listing of its
        directory: all but the five with the greatest names. */
    method DeleteBackupFolders(listing: seq<string>) returns (directory: string, toRemove: seq<string>)
      ensures directory == BackupDirectory(projectPath)
      ensures toRemove == BackupsToRemove(listing, BackupPrefix(projectPath))
    {
      var parts := Split(projectPath, "/");
      var projectNameAndSuffix := parts[|parts| - 1];
      directory := Slice(projectPath, 0, -|projectNameAndSuffix|);
      var projectName := Slice(projectNameAndSuffix, 0, -4);
      var prefix := projectName + "_BKUP_";
      var backups := ListBackups(listing, prefix);
      backups := Sort(backups, true);
      toRemove := [];
      if |backups| > 5 {
        toRemove := backups[5..];
      }
    }
  }

  /** The entries whose project exists, taken one by one. */
  method KeepExisting(previous: seq<string>, existing: set<string>) returns (interim: seq<string>)
    ensures interim == ExistingEntries(previous, existing)
  {
    interim := [];
    var i := 0;
    while i < |previous|
      invariant 0 <= i <= |previous|
      invariant interim == ExistingEntries(previous[..i], existing)
    {
      assert previous[..i + 1][..i] == previous[..i];
      if ProjectPath(previous[i]) in existing {
        interim := interim + [previous[i]];
      }
      i := i + 1;
    }
    assert previous[..i] == previous;
  }

  /** The entries taken one by one, each kept unless its project path is among
      those of the entries already kept. */
  method KeepNewestPerProject(interim: seq<string>) returns (result: seq<string>)
    ensures result == Dedup(interim)
  {
    result := [];
    var projPaths := [];
    var i := 0;
    while i < |interim|
      invariant 0 <= i <= |interim|
      invariant result == Dedup(interim[..i]) && projPaths == Paths(result)
    {
      assert interim[..i + 1][..i] == interim[..i];
      var projPath := ProjectPath(interim[i]);
      if projPath !in projPaths {
        projPaths := projPaths + [projPath];
        result := result + [interim[i]];
      }
      i := i + 1;
    }
    assert interim[..i] == interim;
  }

  /** The name test applied to each entry of the listing in turn. */
  method ListBackups(listing: seq<string>, prefix: string) returns (backups: seq<string>)
    ensures backups == Backups(listing, prefix)
  {
    backups := [];
    var i := 0;
    while i < |listing|
      invariant 0 <= i <= |listing|
      invariant backups == Backups(listing[..i], prefix)
    {
      assert listing[..i + 1][..i] == listing[..i];
      var f := listing[i];
      if Slice(f, 0, |prefix|) == prefix && Slice(f, -4, |f|) == ".qda" {
        backups := backups + [f];
      }
      i := i + 1;
    }
    assert listing[..i] == listing;
  }

  /** For each key in turn, the default value when the key is missing. */
  method AddMissingSettings(data: map<string, Setting>, keys: seq<string>) returns (result: map<string, Setting>)
    ensures result == Completed(data, keys)
  {
    result := data;
    var i := 0;
    while i < |keys|
      invariant 0 <= i <= |keys|
      invariant result == Completed(data, keys[..i])
    {
      assert keys[..i + 1][..i] == keys[..i];
      var key := keys[i];
      if key !in result {
        var value := Number(0);
        if key == "timestampformat" {
          value := Text("[hh.mm.ss]");
        }
        if key == "speakernameformat" {
          value := Text("[]");
        }
        result := result[key := value];
      }
      i := i + 1;
    }
    assert keys[..i] == keys;
  }

  /** Writes lines one by one and stops after the tenth. */
  method WriteLines(lines: seq<string>) returns (written: seq<string>)
    ensures written == FirstTen(lines)
  {
    written := [];
    var i := 0;
    while i < |lines|
      invariant 0 <= i <= |lines| && i <= 10
      invariant written == lines[..i]
      invariant i == 10 ==> i == |lines|
    {
      written := written + [lines[i]];
      if i > 8 {
        assert written == lines[..10];
        return;
      }
      i := i + 1;
    }
  }
}
