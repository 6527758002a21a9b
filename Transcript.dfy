/** `analyze_repo_files` (app.py): a top-down walk of the repository that prunes
    excluded subdirectories, keeps the files `should_include_file` admits, and
    for each one it can read writes a header and the first 1000 characters to
    the transcript and queues a record carrying the same excerpt.

    The file system is replaced by a tree value: a directory has a name, its
    files in listing order and its subdirectories in listing order, and each
    file carries the outcome of reading it. */
module Transcript {
  import opened Strings
  import FileFilter

  /** The excerpt cap `content[:1000]`. */
  const EXCERPT_LIMIT: nat := 1000

  /** What `open(...).read()` gives for a file: its text, or the exception. */
  datatype ReadResult = Text(content: string) | ReadFailed(reason: string)

  datatype FileEntry = FileEntry(name: string, read: ReadResult)

  datatype Dir = Dir(name: string, files: seq<FileEntry>, subdirs: seq<Dir>)

  /** The dictionary `file_info` put on the queue. */
  datatype FileRecord = FileRecord(path: string, name: string, content: string)

  /** A file as the walk reaches it: the names of the directories between the
      root and the file (the root's own name is not among them), its path, and
      the entry itself. */
  datatype Located = Located(dirs: seq<string>, path: string, entry: FileEntry)

  datatype Config = Config(excludeDirs: set<string>, excludeFiles: set<string>, includeFiles: set<string>)

  const DEFAULT_CONFIG: Config :=
    Config(FileFilter.EXCLUDE_DIRS, FileFilter.EXCLUDE_FILES, FileFilter.INCLUDE_FILES)

  /** `os.path.join(root, name)` for a name without a separator, with `/` as the
      separator: the path begins with the root and ends with the name, and at
      most one separator is put between them. */
  function JoinPath(root: string, name: string): (path: string)
    ensures StartsWith(path, root) && EndsWith(path, name)
    ensures |root| + |name| <= |path| <= |root| + |name| + 1
  {
    if root == [] || root[|root| - 1] == '/' then root + name else root + "/" + name
  }

  /** `content[:1000]`: the first `EXCERPT_LIMIT` characters, or all of them. */
  function Excerpt(content: string): (r: string)
    ensures |r| == Min(|content|, EXCERPT_LIMIT)
    ensures r == content[..|r|]
  {
    Slice(content, 0, EXCERPT_LIMIT)
  }

  /** The header line of one file: the file name between a fixed 12-character
      opening and a fixed 6-character closing. */
  function Header(name: string): (r: string)
    ensures |r| == |name| + 18 && r[12..|r| - 6] == name
  {
    "\n\n--- File: " + name + " ---\n\n"
  }

  /** What one queued record stands for in the transcript. */
  function Block(r: FileRecord): string {
    Header(r.name) + r.content
  }

  /** The transcript text belonging to a sequence of records, in their order. */
  function Render(records: seq<FileRecord>): string {
    if records == [] then [] else Render(records[..|records| - 1]) + Block(records[|records| - 1])
  }

  /** The files of one directory, in listing order, located under `root`. */
  function LocateFiles(files: seq<FileEntry>, root: string, dirs: seq<string>): seq<Located> {
    seq(|files|, i requires 0 <= i < |files| => Located(dirs, JoinPath(root, files[i].name), files[i]))
  }

  /** `dirs[:] = [d for d in dirs if d not in EXCLUDE_DIRS]`; `PruneKeepsOrder`
      shows the kept ones stay in listing order. */
  function Prune(subdirs: seq<Dir>, excludeDirs: set<string>): (kept: seq<Dir>)
    ensures forall d :: d in kept <==> d in subdirs && d.name !in excludeDirs
  {
    if subdirs == [] then []
    else
      var last := subdirs[|subdirs| - 1];
      Prune(subdirs[..|subdirs| - 1], excludeDirs) + (if last.name in excludeDirs then [] else [last])
  }

  /** Reference for the order of `Prune`: the positions, in increasing order, of
      the subdirectories whose name is not excluded. */
  function KeptIndices(subdirs: seq<Dir>, excludeDirs: set<string>): seq<nat> {
    if subdirs == [] then []
    else
      var i := |subdirs| - 1;
      KeptIndices(subdirs[..i], excludeDirs) + (if subdirs[i].name in excludeDirs then [] else [i])
  }

  /** `kept` lists the entries of `subdirs` at the increasing positions `idx`,
      which are exactly the positions whose name is not excluded. */
  predicate KeptInOrder(subdirs: seq<Dir>, kept: seq<Dir>, idx: seq<nat>, excludeDirs: set<string>) {
    && |idx| == |kept|
    && (forall k :: 0 <= k < |idx| ==> idx[k] < |subdirs| && kept[k] == subdirs[idx[k]])
    && (forall k, m :: 0 <= k < m < |idx| ==> idx[k] < idx[m])
    && (forall i :: 0 <= i < |subdirs| ==> (i in idx <==> subdirs[i].name !in excludeDirs))
  }

  /** The comprehension keeps the listing order: the kept subdirectories are
      those at the increasing positions `KeptIndices`, and these are exactly the
      positions whose name is not excluded. */
  lemma {:induction false} PruneKeepsOrder(subdirs: seq<Dir>, excludeDirs: set<string>)
    ensures KeptInOrder(subdirs, Prune(subdirs, excludeDirs), KeptIndices(subdirs, excludeDirs), excludeDirs)
  {
    if subdirs != [] {
      var n := |subdirs| - 1;
      var init := subdirs[..n];
      PruneKeepsOrder(init, excludeDirs);
      assert subdirs == init + [subdirs[n]];
      PruneSnoc(init, subdirs[n], excludeDirs);
      KeptInOrderSnoc(init, subdirs[n], Prune(init, excludeDirs), KeptIndices(init, excludeDirs), excludeDirs);
    }
  }

  lemma KeptInOrderSnoc(init: seq<Dir>, s: Dir, kept: seq<Dir>, idx: seq<nat>, excludeDirs: set<string>)
    requires KeptInOrder(init, kept, idx, excludeDirs)
    ensures s.name in excludeDirs ==> KeptInOrder(init + [s], kept, idx, excludeDirs)
    ensures s.name !in excludeDirs ==> KeptInOrder(init + [s], kept + [s], idx + [|init|], excludeDirs)
  {
    var n := |init|;
    var subdirs := init + [s];
    forall i | i in idx ensures i < n {
      var k :| 0 <= k < |idx| && idx[k] == i;
    }
    if s.name in excludeDirs {
      assert n !in idx;
    } else {
      var idx' := idx + [n];
      forall i | 0 <= i < |subdirs| ensures (i in idx' <==> subdirs[i].name !in excludeDirs) {
        if i < n {
          assert i in idx' <==> i in idx;
        } else {
          assert idx'[|idx|] == n;
        }
      }
    }
  }

  /** The files `os.walk` reaches from `d`, pruning as `analyze_repo_files` does:
      the directory's own files first, then each kept subdirectory in turn. */
  function Walked(d: Dir, root: string, dirs: seq<string>, excludeDirs: set<string>): (r: seq<Located>)
    ensures forall i :: 0 <= i < |r| ==> Below(r[i], dirs, excludeDirs)
    decreases d, 1, 0
  {
    var own := LocateFiles(d.files, root, dirs);
    assert forall l :: l in own ==> l.dirs == dirs && l.dirs[..|dirs|] == dirs;
    own + WalkedAll(Prune(d.subdirs, excludeDirs), d, root, dirs, excludeDirs)
  }

  function WalkedAll(ds: seq<Dir>, parent: Dir, root: string, dirs: seq<string>, excludeDirs: set<string>)
    : (r: seq<Located>)
    requires forall x :: x in ds ==> x in parent.subdirs
    ensures (forall x :: x in ds ==> x.name !in excludeDirs) ==> forall i :: 0 <= i < |r| ==> Below(r[i], dirs, excludeDirs)
    decreases parent, 0, |ds|
  {
    if ds == [] then []
    else
      var last := ds[|ds| - 1];
      assert last in ds && last in parent.subdirs;
      var rest := WalkedAll(ds[..|ds| - 1], parent, root, dirs, excludeDirs);
      var below := Walked(last, JoinPath(root, last.name), dirs + [last.name], excludeDirs);
      assert forall x :: x in ds[..|ds| - 1] ==> x in ds;
      assert last.name !in excludeDirs ==> forall l :: l in below ==> Below(l, dirs, excludeDirs) by {
        if last.name !in excludeDirs { BelowParent(below, dirs, last.name, excludeDirs); }
      }
      rest + below
  }

  /** A located file lies under the directories `dirs`, and none of the
      directories between those and the file has an excluded name. */
  predicate Below(l: Located, dirs: seq<string>, excludeDirs: set<string>) {
    |dirs| <= |l.dirs| && l.dirs[..|dirs|] == dirs
    && forall j :: |dirs| <= j < |l.dirs| ==> l.dirs[j] !in excludeDirs
  }

  /** Files below a kept subdirectory `name` of `dirs` are below `dirs` too. */
  lemma BelowParent(ls: seq<Located>, dirs: seq<string>, name: string, excludeDirs: set<string>)
    requires name !in excludeDirs
    requires forall l :: l in ls ==> Below(l, dirs + [name], excludeDirs)
    ensures forall l :: l in ls ==> Below(l, dirs, excludeDirs)
  {
    forall l | l in ls ensures Below(l, dirs, excludeDirs) {
      assert l.dirs[..|dirs| + 1][..|dirs|] == l.dirs[..|dirs|];
      assert l.dirs[|dirs|] == (dirs + [name])[|dirs|];
    }
  }

  /** Reference: every file of the tree in top-down order, with no pruning. */
  function AllFiles(d: Dir, root: string, dirs: seq<string>): seq<Located>
    decreases d, 1, 0
  {
    LocateFiles(d.files, root, dirs) + AllFilesOf(d.subdirs, d, root, dirs)
  }

  function AllFilesOf(ds: seq<Dir>, parent: Dir, root: string, dirs: seq<string>): seq<Located>
    requires forall x :: x in ds ==> x in parent.subdirs
    decreases parent, 0, |ds|
  {
    if ds == [] then []
    else
      var last := ds[|ds| - 1];
      assert last in ds && last in parent.subdirs;
      AllFilesOf(ds[..|ds| - 1], parent, root, dirs) + AllFiles(last, JoinPath(root, last.name), dirs + [last.name])
  }

  /** A file none of whose enclosing directories (below the root) is excluded. */
  predicate Reachable(l: Located, excludeDirs: set<string>) {
    forall i :: 0 <= i < |l.dirs| ==> l.dirs[i] !in excludeDirs
  }

  function Visible(ls: seq<Located>, excludeDirs: set<string>): seq<Located> {
    if ls == [] then []
    else
      var last := ls[|ls| - 1];
      Visible(ls[..|ls| - 1], excludeDirs) + (if Reachable(last, excludeDirs) then [last] else [])
  }

  /** The record a located file contributes: one if it is admitted and readable,
      none otherwise. */
  function RecordOf(l: Located, cfg: Config): seq<FileRecord> {
    if FileFilter.Admitted(l.entry.name, cfg.excludeFiles, cfg.includeFiles) && l.entry.read.Text? then
      [FileRecord(l.path, l.entry.name, Excerpt(l.entry.read.content))]
    else []
  }

  function Records(ls: seq<Located>, cfg: Config): seq<FileRecord> {
    if ls == [] then [] else Records(ls[..|ls| - 1], cfg) + RecordOf(ls[|ls| - 1], cfg)
  }

  // ---------------------------------------------------------------------------
  // The walk itself

  /** `analyze_repo_files(repo_path, file_queue, transcript_file_path)`: returns
      what it writes to the transcript file and what it puts on the queue. */
  method AnalyzeRepoFiles(tree: Dir, repoPath: string, cfg: Config) returns (transcript: string, queue: seq<FileRecord>)
    ensures queue == Records(Walked(tree, repoPath, [], cfg.excludeDirs), cfg)
    ensures transcript == Render(queue)
  {
    transcript, queue := WalkDir(tree, repoPath, [], cfg, [], []);
  }

  /** One directory of the walk and, recursively, the kept subdirectories below it. */
  method WalkDir(d: Dir, root: string, dirs: seq<string>, cfg: Config, transcript0: string, queue0: seq<FileRecord>)
    returns (transcript: string, queue: seq<FileRecord>)
    requires transcript0 == Render(queue0)
    ensures queue == queue0 + Records(Walked(d, root, dirs, cfg.excludeDirs), cfg)
    ensures transcript == Render(queue)
    decreases d, 1
  {
    var located := LocateFiles(d.files, root, dirs);
    transcript, queue := AddFiles(d.files, root, dirs, cfg, transcript0, queue0);
    var kept := Prune(d.subdirs, cfg.excludeDirs);
    ghost var rest := WalkedAll(kept, d, root, dirs, cfg.excludeDirs);
    assert Walked(d, root, dirs, cfg.excludeDirs) == located + rest;
    ghost var mid := queue;
    assert mid == queue0 + Records(located, cfg);
    transcript, queue := WalkSubdirs(d, kept, root, dirs, cfg, transcript, queue);
    assert queue == mid + Records(rest, cfg);
    RecordsAppend(located, rest, cfg);
    AppendAssoc(queue0, Records(located, cfg), Records(rest, cfg));
  }

  /** The loop over the files of one directory. */
  method AddFiles(files: seq<FileEntry>, root: string, dirs: seq<string>, cfg: Config,
                  transcript0: string, queue0: seq<FileRecord>)
    returns (transcript: string, queue: seq<FileRecord>)
    requires transcript0 == Render(queue0)
    ensures queue == queue0 + Records(LocateFiles(files, root, dirs), cfg)
    ensures transcript == Render(queue)
  {
    transcript, queue := transcript0, queue0;
    ghost var located := LocateFiles(files, root, dirs);
    for i := 0 to |files|
      invariant queue == queue0 + Records(located[..i], cfg)
      invariant transcript == Render(queue)
    {
      RecordsStep(located, i, cfg);
      AppendAssoc(queue0, Records(located[..i], cfg), RecordOf(located[i], cfg));
      transcript, queue := AddFile(files[i], root, dirs, cfg, transcript, queue);
    }
    assert located[..|files|] == located;
  }

  /** The body of the loop for one file: if it is admitted and its read
      succeeds, its header and excerpt go to the transcript and its record to
      the queue; otherwise nothing changes. */
  method AddFile(file: FileEntry, root: string, dirs: seq<string>, cfg: Config,
                 transcript0: string, queue0: seq<FileRecord>)
    returns (transcript: string, queue: seq<FileRecord>)
    requires transcript0 == Render(queue0)
    ensures queue == queue0 + RecordOf(Located(dirs, JoinPath(root, file.name), file), cfg)
    ensures transcript == Render(queue)
  {
    transcript, queue := transcript0, queue0;
    var admitted := FileFilter.ShouldIncludeFile(file.name, cfg.excludeFiles, cfg.includeFiles);
    if admitted {
      var path := JoinPath(root, file.name);
      match file.read
      case Text(content) =>
        var record := FileRecord(path, file.name, Excerpt(content));
        transcript := transcript + Header(file.name);
        transcript := transcript + Excerpt(content);
        assert transcript == transcript0 + Block(record);
        RenderSnoc(queue, record);
        queue := queue + [record];
      case ReadFailed(_) =>
    }
  }

  /** The records of one more located file. */
  lemma RecordsStep(located: seq<Located>, i: nat, cfg: Config)
    requires i < |located|
    ensures Records(located[..i + 1], cfg) == Records(located[..i], cfg) + RecordOf(located[i], cfg)
  {
    assert located[..i + 1][..i] == located[..i];
  }

  /** The walk's descent into the kept subdirectories of `d`, in order. */
  method WalkSubdirs(d: Dir, kept: seq<Dir>, root: string, dirs: seq<string>, cfg: Config,
                     transcript0: string, queue0: seq<FileRecord>)
    returns (transcript: string, queue: seq<FileRecord>)
    requires forall x :: x in kept ==> x in d.subdirs
    requires transcript0 == Render(queue0)
    ensures queue == queue0 + Records(WalkedAll(kept, d, root, dirs, cfg.excludeDirs), cfg)
    ensures transcript == Render(queue)
    decreases d, 0
  {
    transcript, queue := transcript0, queue0;
    for j := 0 to |kept|
      invariant queue == queue0 + Records(WalkedAll(kept[..j], d, root, dirs, cfg.excludeDirs), cfg)
      invariant transcript == Render(queue)
    {
      var sub := kept[j];
      assert sub in d.subdirs;
      WalkSubdirsStep(d, kept, j, root, dirs, cfg.excludeDirs);
      ghost var before := WalkedAll(kept[..j], d, root, dirs, cfg.excludeDirs);
      ghost var next := Walked(sub, JoinPath(root, sub.name), dirs + [sub.name], cfg.excludeDirs);
      transcript, queue := WalkDir(sub, JoinPath(root, sub.name), dirs + [sub.name], cfg, transcript, queue);
      RecordsAppend(before, next, cfg);
      AppendAssoc(queue0, Records(before, cfg), Records(next, cfg));
    }
    assert kept[..|kept|] == kept;
  }

  /** The walk of the first `j + 1` kept subdirectories is that of the first `j`
      followed by the walk of subdirectory `j`. */
  lemma WalkSubdirsStep(d: Dir, kept: seq<Dir>, j: nat, root: string, dirs: seq<string>, ex: set<string>)
    requires forall x :: x in kept ==> x in d.subdirs
    requires j < |kept|
    ensures forall x :: x in kept[..j + 1] ==> x in d.subdirs
    ensures forall x :: x in kept[..j] ==> x in d.subdirs
    ensures WalkedAll(kept[..j + 1], d, root, dirs, ex)
            == WalkedAll(kept[..j], d, root, dirs, ex) + Walked(kept[j], JoinPath(root, kept[j].name), dirs + [kept[j].name], ex)
  {
    var sub := kept[j];
    assert kept[..j + 1] == kept[..j] + [sub];
    assert forall x :: x in kept[..j + 1] ==> x in kept;
    WalkedAllSnoc(d, kept[..j], sub, root, dirs, ex);
  }

  // ---------------------------------------------------------------------------
  // Lemmas

  lemma AppendAssoc<T>(a: seq<T>, b: seq<T>, c: seq<T>)
    ensures (a + b) + c == a + (b + c)
  {
  }

  lemma RenderSnoc(records: seq<FileRecord>, r: FileRecord)
    ensures Render(records + [r]) == Render(records) + Block(r)
  {
    assert (records + [r])[..|records|] == records;
  }

  lemma {:induction false} RecordsAppend(a: seq<Located>, b: seq<Located>, cfg: Config)
    ensures Records(a + b, cfg) == Records(a, cfg) + Records(b, cfg)
    decreases |b|
  {
    if b != [] {
      var b' := b[..|b| - 1];
      assert (a + b)[..|a + b| - 1] == a + b';
      RecordsAppend(a, b', cfg);
    } else {
      assert a + b == a;
    }
  }

  lemma {:induction false} VisibleAppend(a: seq<Located>, b: seq<Located>, ex: set<string>)
    ensures Visible(a + b, ex) == Visible(a, ex) + Visible(b, ex)
    decreases |b|
  {
    if b != [] {
      var b' := b[..|b| - 1];
      assert (a + b)[..|a + b| - 1] == a + b';
      VisibleAppend(a, b', ex);
    } else {
      assert a + b == a;
    }
  }

  /** A file that is skipped (not admitted, or its read fails) contributes
      nothing, and the files after it are processed as if it were absent. */
  lemma SkippedFileContributesNothing(before: seq<Located>, l: Located, after: seq<Located>, cfg: Config)
    requires !FileFilter.Admitted(l.entry.name, cfg.excludeFiles, cfg.includeFiles) || l.entry.read.ReadFailed?
    ensures Records(before + [l] + after, cfg) == Records(before, cfg) + Records(after, cfg)
  {
    RecordsAppend(before + [l], after, cfg);
    assert (before + [l])[..|before|] == before;
  }

  /** Records are exactly the admitted, readable files, each carrying its path,
      its name and an excerpt of at most `EXCERPT_LIMIT` characters that begins
      its content. */
  lemma {:induction false} RecordsExact(ls: seq<Located>, cfg: Config)
    ensures forall r :: r in Records(ls, cfg) ==>
              |r.content| <= EXCERPT_LIMIT
              && exists l :: l in ls && FileFilter.Admitted(l.entry.name, cfg.excludeFiles, cfg.includeFiles)
                             && l.entry.read.Text? && r == FileRecord(l.path, l.entry.name, Excerpt(l.entry.read.content))
    ensures forall l :: (l in ls && FileFilter.Admitted(l.entry.name, cfg.excludeFiles, cfg.includeFiles)
                         && l.entry.read.Text?) ==> FileRecord(l.path, l.entry.name, Excerpt(l.entry.read.content)) in Records(ls, cfg)
  {
    if ls != [] {
      var init := ls[..|ls| - 1];
      RecordsExact(init, cfg);
      assert forall l :: l in init ==> l in ls;
      assert forall l :: l in ls ==> l in init || l == ls[|ls| - 1];
    }
  }

  lemma {:induction false} VisibleEmpty(ls: seq<Located>, ex: set<string>)
    requires forall l :: l in ls ==> !Reachable(l, ex)
    ensures Visible(ls, ex) == []
    decreases |ls|
  {
    if ls != [] {
      assert ls[|ls| - 1] in ls;
      assert forall l :: l in ls[..|ls| - 1] ==> l in ls;
      VisibleEmpty(ls[..|ls| - 1], ex);
    }
  }

  /** Every file below `d` lies under the directories `dirs`. */
  lemma {:induction false} AllFilesUnder(d: Dir, root: string, dirs: seq<string>)
    ensures forall l :: l in AllFiles(d, root, dirs) ==> |dirs| <= |l.dirs| && l.dirs[..|dirs|] == dirs
    decreases d, 1, 0
  {
    AllFilesOfUnder(d.subdirs, d, root, dirs);
  }

  lemma {:induction false} AllFilesOfUnder(ds: seq<Dir>, parent: Dir, root: string, dirs: seq<string>)
    requires forall x :: x in ds ==> x in parent.subdirs
    ensures forall l :: l in AllFilesOf(ds, parent, root, dirs) ==> |dirs| <= |l.dirs| && l.dirs[..|dirs|] == dirs
    decreases parent, 0, |ds|
  {
    if ds != [] {
      var last := ds[|ds| - 1];
      assert last in ds && last in parent.subdirs;
      AllFilesOfUnder(ds[..|ds| - 1], parent, root, dirs);
      AllFilesUnder(last, JoinPath(root, last.name), dirs + [last.name]);
      forall l | l in AllFiles(last, JoinPath(root, last.name), dirs + [last.name])
        ensures |dirs| <= |l.dirs| && l.dirs[..|dirs|] == dirs
      {
        assert l.dirs[..|dirs| + 1][..|dirs|] == l.dirs[..|dirs|];
      }
    }
  }

  /** Pruning is exactly filtering: the walk reaches precisely the files of the
      whole tree none of whose enclosing directories below the root is excluded,
      in the same order. The root itself is never pruned. */
  lemma {:induction false} WalkIsVisibleTree(d: Dir, root: string, dirs: seq<string>, ex: set<string>)
    requires forall i :: 0 <= i < |dirs| ==> dirs[i] !in ex
    ensures Walked(d, root, dirs, ex) == Visible(AllFiles(d, root, dirs), ex)
    decreases d, 1, 0
  {
    var files := LocateFiles(d.files, root, dirs);
    LocatedVisible(files, dirs, ex);
    WalkAllIsVisible(d, |d.subdirs|, root, dirs, ex);
    assert d.subdirs[..|d.subdirs|] == d.subdirs;
    VisibleAppend(files, AllFilesOf(d.subdirs, d, root, dirs), ex);
  }

  lemma LocatedVisible(files: seq<Located>, dirs: seq<string>, ex: set<string>)
    requires forall i :: 0 <= i < |dirs| ==> dirs[i] !in ex
    requires forall i :: 0 <= i < |files| ==> files[i].dirs == dirs
    ensures Visible(files, ex) == files
    decreases |files|
  {
    if files != [] {
      var init := files[..|files| - 1];
      var last := files[|files| - 1];
      LocatedVisible(init, dirs, ex);
      assert Reachable(last, ex);
      assert files == init + [last];
    }
  }

  lemma {:induction false} WalkAllIsVisible(d: Dir, j: nat, root: string, dirs: seq<string>, ex: set<string>)
    requires j <= |d.subdirs|
    requires forall i :: 0 <= i < |dirs| ==> dirs[i] !in ex
    ensures forall x :: x in Prune(d.subdirs[..j], ex) ==> x in d.subdirs
    ensures WalkedAll(Prune(d.subdirs[..j], ex), d, root, dirs, ex)
            == Visible(AllFilesOf(d.subdirs[..j], d, root, dirs), ex)
    decreases d, 0, j
  {
    assert forall x :: x in d.subdirs[..j] ==> x in d.subdirs;
    if j > 0 {
      var s := d.subdirs[j - 1];
      var init := d.subdirs[..j - 1];
      assert d.subdirs[..j] == init + [s];
      WalkAllIsVisible(d, j - 1, root, dirs, ex);
      if s.name !in ex {
        WalkIsVisibleTree(s, JoinPath(root, s.name), dirs + [s.name], ex);
      }
      WalkAllIsVisibleStep(d, init, s, root, dirs, ex);
    }
  }

  /** One more subdirectory: pruned, it adds nothing visible; kept, it adds its
      walk, which is its visible files. */
  lemma WalkAllIsVisibleStep(d: Dir, init: seq<Dir>, s: Dir, root: string, dirs: seq<string>, ex: set<string>)
    requires forall x :: x in init + [s] ==> x in d.subdirs
    requires forall x :: x in Prune(init, ex) ==> x in d.subdirs
    requires WalkedAll(Prune(init, ex), d, root, dirs, ex) == Visible(AllFilesOf(init, d, root, dirs), ex)
    requires s.name !in ex ==>
               Walked(s, JoinPath(root, s.name), dirs + [s.name], ex)
               == Visible(AllFiles(s, JoinPath(root, s.name), dirs + [s.name]), ex)
    ensures forall x :: x in Prune(init + [s], ex) ==> x in d.subdirs
    ensures WalkedAll(Prune(init + [s], ex), d, root, dirs, ex)
            == Visible(AllFilesOf(init + [s], d, root, dirs), ex)
  {
    var sub := JoinPath(root, s.name);
    var subDirs := dirs + [s.name];
    var kept := Prune(init, ex);
    var before := AllFilesOf(init, d, root, dirs);
    var below := AllFiles(s, sub, subDirs);
    PruneSnoc(init, s, ex);
    AllFilesOfSnoc(d, init, s, root, dirs);
    VisibleAppend(before, below, ex);
    if s.name in ex {
      assert kept + [] == kept;
      assert Prune(init + [s], ex) == kept;
      ExcludedSubtreeInvisible(s, sub, dirs, ex);
      assert Visible(before, ex) + [] == Visible(before, ex);
      assert Visible(before + below, ex) == Visible(before, ex);
    } else {
      assert Prune(init + [s], ex) == kept + [s];
      WalkedAllSnoc(d, kept, s, root, dirs, ex);
      assert WalkedAll(kept + [s], d, root, dirs, ex) == Visible(before, ex) + Visible(below, ex);
    }
  }

  lemma PruneSnoc(init: seq<Dir>, s: Dir, ex: set<string>)
    ensures Prune(init + [s], ex) == Prune(init, ex) + (if s.name in ex then [] else [s])
  {
    assert (init + [s])[..|init|] == init;
  }

  lemma WalkedAllSnoc(d: Dir, kept: seq<Dir>, s: Dir, root: string, dirs: seq<string>, ex: set<string>)
    requires forall x :: x in kept + [s] ==> x in d.subdirs
    ensures forall x :: x in kept ==> x in d.subdirs
    ensures WalkedAll(kept + [s], d, root, dirs, ex)
            == WalkedAll(kept, d, root, dirs, ex) + Walked(s, JoinPath(root, s.name), dirs + [s.name], ex)
  {
    assert forall x :: x in kept ==> x in kept + [s];
    assert (kept + [s])[..|kept|] == kept;
  }

  lemma AllFilesOfSnoc(d: Dir, init: seq<Dir>, s: Dir, root: string, dirs: seq<string>)
    requires forall x :: x in init + [s] ==> x in d.subdirs
    ensures forall x :: x in init ==> x in d.subdirs
    ensures AllFilesOf(init + [s], d, root, dirs)
            == AllFilesOf(init, d, root, dirs) + AllFiles(s, JoinPath(root, s.name), dirs + [s.name])
  {
    assert forall x :: x in init ==> x in init + [s];
    assert (init + [s])[..|init|] == init;
  }

  /** Nothing below a subdirectory with an excluded name is visible. */
  lemma ExcludedSubtreeInvisible(s: Dir, sub: string, dirs: seq<string>, ex: set<string>)
    requires s.name in ex
    ensures Visible(AllFiles(s, sub, dirs + [s.name]), ex) == []
  {
    var subDirs := dirs + [s.name];
    AllFilesUnder(s, sub, subDirs);
    forall l | l in AllFiles(s, sub, subDirs) ensures !Reachable(l, ex) {
      assert l.dirs[|dirs|] == l.dirs[..|subDirs|][|dirs|] == subDirs[|dirs|];
    }
    VisibleEmpty(AllFiles(s, sub, subDirs), ex);
  }

  /** No file below an excluded subdirectory is in the walk, at any depth. */
  lemma WalkSkipsExcluded(tree: Dir, root: string, ex: set<string>)
    ensures forall l :: l in Walked(tree, root, [], ex) ==> Reachable(l, ex)
  {
    WalkIsVisibleTree(tree, root, [], ex);
    VisibleReachable(AllFiles(tree, root, []), ex);
  }

  lemma {:induction false} VisibleReachable(ls: seq<Located>, ex: set<string>)
    ensures forall l :: l in Visible(ls, ex) ==> Reachable(l, ex) && l in ls
    decreases |ls|
  {
    if ls != [] {
      VisibleReachable(ls[..|ls| - 1], ex);
      assert forall l :: l in ls[..|ls| - 1] ==> l in ls;
    }
  }

  /** The example of a repository with `a.py` (any 1500 characters) at the top and
      `node_modules/b.py` below: one record, for `a.py`, with its first 1000
      characters, and a transcript holding only that block. */
  lemma ExampleRepository(content: string)
    requires |content| == 1500
    ensures var tree := Dir("repo", [FileEntry("a.py", Text(content))],
                            [Dir("node_modules", [FileEntry("b.py", Text("y"))], [])]);
            var queue := Records(Walked(tree, "repo", [], FileFilter.EXCLUDE_DIRS), DEFAULT_CONFIG);
            && queue == [FileRecord("repo/a.py", "a.py", content[..1000])]
            && Render(queue) == "\n\n--- File: a.py ---\n\n" + content[..1000]
  {
    var entry := FileEntry("a.py", Text(content));
    var tree := Dir("repo", [entry], [Dir("node_modules", [FileEntry("b.py", Text("y"))], [])]);
    ExampleWalk(tree, entry);
    var record := ExampleRecords(content, entry);
    ExampleRender(record);
  }

  /** The one located file `a.py` gives one record with the first 1000 characters. */
  lemma ExampleRecords(content: string, entry: FileEntry) returns (record: FileRecord)
    requires |content| == 1500 && entry == FileEntry("a.py", Text(content))
    ensures record == FileRecord("repo/a.py", "a.py", content[..1000])
    ensures Records([Located([], "repo/a.py", entry)], DEFAULT_CONFIG) == [record]
  {
    var l := Located([], "repo/a.py", entry);
    ExampleAdmitted();
    record := FileRecord("repo/a.py", "a.py", content[..1000]);
    assert Excerpt(content) == content[..1000];
    assert RecordOf(l, DEFAULT_CONFIG) == [record];
    assert [l][..0] == [];
  }

  lemma ExampleRender(record: FileRecord)
    requires record.name == "a.py"
    ensures Render([record]) == "\n\n--- File: a.py ---\n\n" + record.content
  {
    assert [record][..0] == [];
    assert Render([record]) == Header("a.py") + record.content;
    ExampleHeader();
  }

  lemma ExampleHeader()
    ensures Header("a.py") == "\n\n--- File: a.py ---\n\n"
  {
  }

  lemma ExampleWalk(tree: Dir, entry: FileEntry)
    requires entry.name == "a.py"
    requires tree == Dir("repo", [entry], [Dir("node_modules", [FileEntry("b.py", Text("y"))], [])])
    ensures Walked(tree, "repo", [], FileFilter.EXCLUDE_DIRS) == [Located([], "repo/a.py", entry)]
  {
    assert Prune(tree.subdirs, FileFilter.EXCLUDE_DIRS) == [];
    assert JoinPath("repo", "a.py") == "repo/a.py";
    var located := LocateFiles(tree.files, "repo", []);
    assert |located| == 1 && located[0] == Located([], "repo/a.py", entry);
  }

  lemma ExampleAdmitted()
    ensures FileFilter.Admitted("a.py", FileFilter.EXCLUDE_FILES, FileFilter.INCLUDE_FILES)
  {
    var name := "a.py";
    FileFilter.NoExcludeSuffixSound(name);
    FileFilter.ConfiguredIncludesAllNotExcluded(name);
  }
}
