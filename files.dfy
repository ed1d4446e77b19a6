/**
 * rssbox/handlers/file_handler.py, and the copy of the same walk inside
 * rssbox/seedr_client.py: which Seedr files are wanted (by extension), where each is
 * stored locally, and what downloading and uploading one does to the local disk, the
 * cloud drives and the `files` base. The outside world is a value `World`; the HTTP
 * fetch, the drive upload and the MD5 digest are not modelled beyond their effect.
 */
module Files {
  import opened Common
  import opened Paths
  import opened Listing

  /** `check_extension(name)`: the extension of `name`, without its dot and lower-cased, is configured. */
  predicate CheckExtension(name: string, exts: seq<string>) {
    Lower(DropDot(Ext(name))) in exts
  }

  /** A name made of a base with a non-dot character, a dot and a dot-free extension is judged by that extension. */
  lemma {:induction false} CheckExtensionOfDottedName(base: string, e: string, exts: seq<string>)
    requires '/' !in base && HasNonDot(base)
    requires '.' !in e && '/' !in e
    ensures CheckExtension(base + "." + e, exts) <==> Lower(e) in exts
  {
    var p := base + "." + e;
    assert p[|base|] == '.';
    assert '/' !in p by {
      forall i | 0 <= i < |p| ensures p[i] != '/' {
        if i < |base| { assert p[i] == base[i]; }
        else if i > |base| { assert p[i] == e[i - |base| - 1]; }
      }
    }
    var dot := LastIndexOf(p, '.');
    assert dot == |base| by {
      assert p[|base| + 1..] == e;
      LastIndexOfAt(p, '.', |base|);
    }
    assert LastIndexOf(p, '/') == -1 by {
      LastIndexOfIsLast(p, '/');
    }
    assert p[0..dot] == base;
    assert p[dot..] == "." + e;
  }

  /** A name without any dot has the empty extension: it is wanted exactly when "" is configured. */
  lemma {:induction false} CheckExtensionWithoutDot(name: string, exts: seq<string>)
    requires '.' !in name
    ensures CheckExtension(name, exts) <==> "" in exts
  {
    assert LastIndexOf(name, '.') == -1;
  }

  /**
   * The configured entries are not lower-cased, while the extension is: an entry with
   * an upper-case letter matches no name, and adding one to the list changes nothing.
   */
  lemma {:induction false} UpperCaseEntryNeverMatches(name: string, exts: seq<string>, e: string)
    requires exists i :: 0 <= i < |e| && IsUpper(e[i])
    ensures Lower(DropDot(Ext(name))) != e
    ensures !CheckExtension(name, [e])
    ensures CheckExtension(name, exts + [e]) <==> CheckExtension(name, exts)
  {
    LowerMapsLetters(DropDot(Ext(name)));
  }

  /** `get_filedir(file)`: the directory named after the file's id under the download path. */
  function FileDir(downloadPath: string, f: SeedrFile): string {
    Join(downloadPath, IntToString(f.id))
  }

  /** `get_filepath(file)`: the file's name inside its directory. */
  function FilePath(downloadPath: string, f: SeedrFile): string {
    Join(FileDir(downloadPath, f), f.name)
  }

  /** With a non-empty download path, a file's directory ends in its id and not in '/'. */
  lemma FileDirShape(downloadPath: string, f: SeedrFile)
    requires downloadPath != []
    ensures var d := FileDir(downloadPath, f); d != [] && d[|d| - 1] != '/'
  {
    var s := IntToString(f.id);
    IntToStringHasNoSlash(f.id);
    assert s[0] != '/' && s[|s| - 1] != '/' by { assert s[0] in s && s[|s| - 1] in s; }
    var d := Join(downloadPath, s);
    assert d[|d| - 1] == s[|s| - 1];
  }

  /** The directory of a file's path is the file's directory, when its name holds no '/'. */
  lemma {:induction false} FileDirIsParent(downloadPath: string, f: SeedrFile)
    requires downloadPath != []
    requires '/' !in f.name
    ensures Dirname(FilePath(downloadPath, f)) == FileDir(downloadPath, f)
  {
    FileDirShape(downloadPath, f);
    var d := FileDir(downloadPath, f);
    assert f.name == [] || f.name[0] != '/' by { if f.name != [] { assert f.name[0] in f.name; } }
    assert FilePath(downloadPath, f) == d + "/" + f.name;
    DirnameOfChild(d, f.name);
  }

  /** The files of `fs` whose extension is wanted, in order. */
  function AcceptedFiles(fs: seq<SeedrFile>, exts: seq<string>): (r: seq<SeedrFile>)
    ensures |r| <= |fs|
  {
    if fs == [] then []
    else
      var last := fs[|fs| - 1];
      AcceptedFiles(fs[..|fs| - 1], exts) + (if CheckExtension(last.name, exts) then [last] else [])
  }

  /** The filter keeps exactly the wanted files. */
  lemma {:induction false} AcceptedFilesMembers(fs: seq<SeedrFile>, exts: seq<string>, f: SeedrFile)
    ensures f in AcceptedFiles(fs, exts) <==> f in fs && CheckExtension(f.name, exts)
  {
    if fs != [] {
      var init := fs[..|fs| - 1];
      assert fs == init + [fs[|fs| - 1]];
      AcceptedFilesMembers(init, exts, f);
    }
  }

  /** Filtering `a + b` filters `a`, then `b`. */
  lemma {:induction false} AcceptedFilesAppend(a: seq<SeedrFile>, b: seq<SeedrFile>, exts: seq<string>)
    ensures AcceptedFiles(a + b, exts) == AcceptedFiles(a, exts) + AcceptedFiles(b, exts)
  {
    if b == [] {
      assert a + b == a;
    } else {
      assert (a + b)[..|a + b| - 1] == a + b[..|b| - 1];
      AcceptedFilesAppend(a, b[..|b| - 1], exts);
    }
  }

  /**
   * The files `process_folder(t)` handles, in the order it handles them: the wanted
   * files of the folder itself, then those of each sub-folder in turn.
   */
  function AcceptedIn(t: Tree, exts: seq<string>): seq<SeedrFile>
    decreases t
  {
    AcceptedFiles(t.files, exts) + AcceptedInAll(t.subfolders, exts)
  }

  /** The files handled for the folders `ts`, one after the other. */
  function AcceptedInAll(ts: seq<Tree>, exts: seq<string>): seq<SeedrFile>
    decreases ts
  {
    if ts == [] then []
    else AcceptedInAll(ts[..|ts| - 1], exts) + AcceptedIn(ts[|ts| - 1], exts)
  }

  /** Filtering one more file of `fs`. */
  lemma AcceptedFilesSnoc(fs: seq<SeedrFile>, i: int, exts: seq<string>)
    requires 0 <= i < |fs|
    ensures AcceptedFiles(fs[..i + 1], exts) == AcceptedFiles(fs[..i], exts) + AcceptedFiles([fs[i]], exts)
  {
    assert fs[..i + 1] == fs[..i] + [fs[i]];
    AcceptedFilesAppend(fs[..i], [fs[i]], exts);
  }

  /** Walking one more folder of `ts`. */
  lemma AcceptedInAllSnoc(ts: seq<Tree>, j: int, exts: seq<string>)
    requires 0 <= j < |ts|
    ensures AcceptedInAll(ts[..j + 1], exts) == AcceptedInAll(ts[..j], exts) + AcceptedIn(ts[j], exts)
  {
    assert ts[..j + 1][..j] == ts[..j];
  }

  /** `f` is listed somewhere in the folder `t` or below it. */
  predicate InTree(t: Tree, f: SeedrFile)
    decreases t
  {
    f in t.files || exists i :: 0 <= i < |t.subfolders| && InTree(t.subfolders[i], f)
  }

  /** The walk handles exactly the wanted files found anywhere in the folder. */
  lemma {:induction false} AcceptedInComplete(t: Tree, exts: seq<string>, f: SeedrFile)
    ensures f in AcceptedIn(t, exts) <==> InTree(t, f) && CheckExtension(f.name, exts)
    decreases t
  {
    AcceptedFilesMembers(t.files, exts, f);
    AcceptedInAllComplete(t.subfolders, exts, f);
  }

  /** The walk over several folders handles the wanted files found in any of them. */
  lemma {:induction false} AcceptedInAllComplete(ts: seq<Tree>, exts: seq<string>, f: SeedrFile)
    ensures f in AcceptedInAll(ts, exts) <==>
      (exists i :: 0 <= i < |ts| && InTree(ts[i], f)) && CheckExtension(f.name, exts)
    decreases ts
  {
    if ts != [] {
      var init := ts[..|ts| - 1];
      var last := ts[|ts| - 1];
      AcceptedInAllComplete(init, exts, f);
      AcceptedInComplete(last, exts, f);
      if exists i :: 0 <= i < |ts| && InTree(ts[i], f) {
        var i :| 0 <= i < |ts| && InTree(ts[i], f);
        if i < |ts| - 1 {
          assert init[i] == ts[i];
        }
      }
      if exists i :: 0 <= i < |init| && InTree(init[i], f) {
        var i :| 0 <= i < |init| && InTree(init[i], f);
        assert ts[i] == init[i];
      }
    }
  }

  /** Whether the walk is file_handler.py's or seedr_client.py's copy of it. */
  datatype Variant = HandlerVariant | ClientVariant

  /** What the walk depends on: the configured extensions and download path, and which copy of the code runs. */
  datatype Settings = Settings(exts: seq<string>, downloadPath: string, variant: Variant)

  /** `md5hash(text)`: the MD5 hex digest of `text`, kept symbolic (the digest is not computed). */
  datatype Digest = Md5(text: string)

  /** A call the walk makes on the outside world, in order. */
  datatype Call = DownloadCall(file: SeedrFile) | UploadCall(file: SeedrFile, now: int)

  /**
   * The outside world: the local files present at the start, with their sizes, and
   * the `download_file` and `upload_file` calls made since. What each call did to the
   * disk, the drives and the `files` base is derived from this history below.
   */
  datatype World = World(disk: map<string, int>, calls: seq<Call>)

  /** The calls `process_file` makes for each wanted file of `fs`: download, then upload. */
  function CallsFor(fs: seq<SeedrFile>, now: int): (r: seq<Call>)
    ensures |r| == 2 * |fs|
  {
    if fs == [] then []
    else CallsFor(fs[..|fs| - 1], now) + [DownloadCall(fs[|fs| - 1]), UploadCall(fs[|fs| - 1], now)]
  }

  /** Handling `a` and then `b` makes the calls of handling `a + b`. */
  lemma {:induction false} CallsForAppend(a: seq<SeedrFile>, b: seq<SeedrFile>, now: int)
    ensures CallsFor(a + b, now) == CallsFor(a, now) + CallsFor(b, now)
  {
    if b == [] {
      assert a + b == a;
    } else {
      var init := b[..|b| - 1];
      assert (a + b)[..|a + b| - 1] == a + init;
      CallsForAppend(a, init, now);
    }
  }

  /** Concatenation of call histories is associative. */
  lemma AppendAssoc(a: seq<Call>, b: seq<Call>, c: seq<Call>)
    ensures a + b + c == a + (b + c)
  {
  }

  /** The path `k` is `dir` or lies below it; nothing lies below "". */
  predicate Under(dir: string, k: string) {
    dir != [] && (k == dir || (if dir[|dir| - 1] == '/' then dir else dir + "/") <= k)
  }

  /** The directory removed after the upload: `get_filedir` or `dirname(filepath)`. */
  function RemovedDir(s: Settings, f: SeedrFile): string {
    if s.variant.HandlerVariant? then FileDir(s.downloadPath, f) else Dirname(FilePath(s.downloadPath, f))
  }

  /**
   * `os.path.exists(path)` and `os.path.getsize(path)` after the calls `calls`: a
   * download that is not skipped writes the file with its Seedr size, an upload
   * removes the file's directory with everything in it.
   */
  function SizeAfter(s: Settings, disk: map<string, int>, calls: seq<Call>, path: string): Option<int>
    decreases calls, 0
  {
    if calls == [] then (if path in disk then Some(disk[path]) else None)
    else
      var before := calls[..|calls| - 1];
      match calls[|calls| - 1]
      case DownloadCall(f) =>
        if FilePath(s.downloadPath, f) == path && !Skips(s, disk, before, f) then Some(f.size)
        else SizeAfter(s, disk, before, path)
      case UploadCall(f, _) =>
        if Under(RemovedDir(s, f), path) then None else SizeAfter(s, disk, before, path)
  }

  /**
   * `download_file` returns early when the file is already on disk: with the same size
   * in file_handler.py, with any size in seedr_client.py.
   */
  predicate Skips(s: Settings, disk: map<string, int>, calls: seq<Call>, f: SeedrFile)
    decreases calls, 1
  {
    var size := SizeAfter(s, disk, calls, FilePath(s.downloadPath, f));
    size.Some? && (s.variant.ClientVariant? || size.value == f.size)
  }

  /** The size of the file at `path` in the world `w`, if there is one. */
  function Size(s: Settings, w: World, path: string): Option<int> {
    SizeAfter(s, w.disk, w.calls, path)
  }

  /** The files actually fetched from Seedr by the calls, in order. */
  function Fetches(s: Settings, disk: map<string, int>, calls: seq<Call>): seq<SeedrFile> {
    if calls == [] then []
    else
      var before := calls[..|calls| - 1];
      match calls[|calls| - 1]
      case DownloadCall(f) => Fetches(s, disk, before) + (if Skips(s, disk, before, f) then [] else [f])
      case UploadCall(_, _) => Fetches(s, disk, before)
  }

  /** `drive.put(name=file.name, path=get_filepath(file))` on the drive named `drive`. */
  datatype Put = Put(drive: Digest, file: SeedrFile)

  /** The drive upload `upload_file` makes for `f`: to the drive named by the MD5 of its name. */
  function PutOf(f: SeedrFile): Put {
    Put(Md5(f.name), f)
  }

  /** The drive uploads made by the calls, in order. */
  function Puts(calls: seq<Call>): seq<Put> {
    if calls == [] then []
    else
      var before := calls[..|calls| - 1];
      match calls[|calls| - 1]
      case DownloadCall(_) => Puts(before)
      case UploadCall(f, _) => Puts(before) + [PutOf(f)]
  }

  /** A document of the `files` base. */
  datatype FileRecord = FileRecord(name: string, size: int, hash: Digest, createdAt: int, downloadsCount: int)

  /** The `files` document `upload_file` inserts for `f` at time `now`. */
  function RecordOf(f: SeedrFile, now: int): FileRecord {
    FileRecord(f.name, f.size, Md5(f.name), now, 0)
  }

  /** The `files` documents inserted by the calls, in order. */
  function Records(calls: seq<Call>): seq<FileRecord> {
    if calls == [] then []
    else
      var before := calls[..|calls| - 1];
      match calls[|calls| - 1]
      case DownloadCall(_) => Records(before)
      case UploadCall(f, now) => Records(before) + [RecordOf(f, now)]
  }

  /** The documents inserted by two runs of calls are those of the first, then those of the second. */
  lemma {:induction false} RecordsAppend(c1: seq<Call>, c2: seq<Call>)
    ensures Records(c1 + c2) == Records(c1) + Records(c2)
    ensures Puts(c1 + c2) == Puts(c1) + Puts(c2)
  {
    if c2 == [] {
      assert c1 + c2 == c1;
    } else {
      assert (c1 + c2)[..|c1 + c2| - 1] == c1 + c2[..|c2| - 1];
      RecordsAppend(c1, c2[..|c2| - 1]);
    }
  }

  /**
   * Handling the wanted files `fs` inserts, in order, one `files` document per file: it
   * names the file, gives its size, is hashed by the MD5 of its name and has been
   * downloaded zero times.
   */
  lemma {:induction false} RecordsOfCalls(s: Settings, fs: seq<SeedrFile>, now: int)
    ensures var rs := Records(CallsFor(fs, now));
      |rs| == |fs| && forall i :: 0 <= i < |fs| ==> rs[i] == RecordOf(fs[i], now)
  {
    if fs != [] {
      var init, x := fs[..|fs| - 1], fs[|fs| - 1];
      RecordsOfCalls(s, init, now);
      var pair := [DownloadCall(x), UploadCall(x, now)];
      assert CallsFor(fs, now) == CallsFor(init, now) + pair;
      RecordsAppend(CallsFor(init, now), pair);
      RecordsOfPair(x, now);
      var before := Records(CallsFor(init, now));
      var rs := Records(CallsFor(fs, now));
      assert rs == before + [RecordOf(x, now)];
      forall i | 0 <= i < |fs| ensures rs[i] == RecordOf(fs[i], now) {
        if i < |init| {
          assert rs[i] == before[i] && fs[i] == init[i];
        }
      }
    }
  }

  /** Handling the wanted files `fs` makes, in order, one upload per file to the drive named by the MD5 of its name. */
  lemma {:induction false} PutsOfCalls(s: Settings, fs: seq<SeedrFile>, now: int)
    ensures var ps := Puts(CallsFor(fs, now));
      |ps| == |fs| && forall i :: 0 <= i < |fs| ==> ps[i] == PutOf(fs[i])
  {
    if fs != [] {
      var init, x := fs[..|fs| - 1], fs[|fs| - 1];
      PutsOfCalls(s, init, now);
      var pair := [DownloadCall(x), UploadCall(x, now)];
      assert CallsFor(fs, now) == CallsFor(init, now) + pair;
      RecordsAppend(CallsFor(init, now), pair);
      RecordsOfPair(x, now);
      var before := Puts(CallsFor(init, now));
      var ps := Puts(CallsFor(fs, now));
      assert ps == before + [PutOf(x)];
      forall i | 0 <= i < |fs| ensures ps[i] == PutOf(fs[i]) {
        if i < |init| {
          assert ps[i] == before[i] && fs[i] == init[i];
        }
      }
    }
  }

  /** Handling one file inserts its document and makes its drive upload. */
  lemma RecordsOfPair(x: SeedrFile, now: int)
    ensures Records([DownloadCall(x), UploadCall(x, now)]) == [RecordOf(x, now)]
    ensures Puts([DownloadCall(x), UploadCall(x, now)]) == [PutOf(x)]
  {
    var one := [DownloadCall(x)];
    assert one[..0] == [];
    assert Records(one) == [];
    assert Puts(one) == Puts(one[..0]);
    var pair := [DownloadCall(x), UploadCall(x, now)];
    assert pair[..1] == one;
  }

  /**
   * A file already on disk with its Seedr size is not fetched again; a file on disk
   * with another size is fetched again by file_handler.py and kept as it is by
   * seedr_client.py; a missing file is fetched by both.
   */
  lemma DownloadFetches(s: Settings, w: World, f: SeedrFile)
    ensures var size := Size(s, w, FilePath(s.downloadPath, f));
      var fetched := Fetches(s, w.disk, w.calls + [DownloadCall(f)]);
      fetched == Fetches(s, w.disk, w.calls) + (if size.Some? && (s.variant.ClientVariant? || size.value == f.size) then [] else [f])
  {
    assert (w.calls + [DownloadCall(f)])[..|w.calls|] == w.calls;
  }

  /** After `download_file(f)` the file is on disk; with its Seedr size unless the client kept an older copy. */
  lemma {:induction false} DownloadLeavesFile(s: Settings, w: World, f: SeedrFile)
    ensures var size := Size(s, w.(calls := w.calls + [DownloadCall(f)]), FilePath(s.downloadPath, f));
      size.Some? && (s.variant.HandlerVariant? ==> size.value == f.size)
  {
    var calls := w.calls + [DownloadCall(f)];
    var path := FilePath(s.downloadPath, f);
    assert calls[..|w.calls|] == w.calls;
    if Skips(s, w.disk, w.calls, f) {
      assert SizeAfter(s, w.disk, calls, path) == SizeAfter(s, w.disk, w.calls, path);
    } else {
      assert SizeAfter(s, w.disk, calls, path) == Some(f.size);
    }
  }

  /** The directory of a path holding a '/' contains that path. */
  lemma {:induction false} DirnameContains(p: string)
    requires '/' in p
    ensures Under(Dirname(p), p)
  {
    var i := LastIndexOf(p, '/');
    LastIndexOfIsLast(p, '/');
    var head := p[..i + 1];
    assert head != [] && head[|head| - 1] == '/';
    if !AllSlashes(head) {
      var r := RStripSlashes(head);
      assert Dirname(p) == r;
      assert r != [] by {
        var j :| 0 <= j < |head| && head[j] != '/';
        StripKeepsNonSlash(head, j);
      }
      StripFollowedBySlash(head);
      assert p[..|r| + 1] == head[..|r| + 1] == r + "/";
    } else {
      assert Dirname(p) == head && head <= p;
    }
  }

  /** Stripping trailing slashes keeps every character before the last non-slash one. */
  lemma {:induction false} StripKeepsNonSlash(s: string, j: int)
    requires 0 <= j < |s| && s[j] != '/'
    ensures j < |RStripSlashes(s)|
  {
    if s[|s| - 1] == '/' {
      StripKeepsNonSlash(s[..|s| - 1], j);
    }
  }

  /** What stripping removes from a string ending in '/' starts with a '/'. */
  lemma {:induction false} StripFollowedBySlash(s: string)
    requires s != [] && s[|s| - 1] == '/'
    ensures |RStripSlashes(s)| < |s| && s[|RStripSlashes(s)|] == '/'
  {
    var t := s[..|s| - 1];
    if t != [] && t[|t| - 1] == '/' {
      StripFollowedBySlash(t);
    }
  }

  /**
   * After a wanted file is handled, its local copy is gone from the disk, in both
   * copies of the code (a name starting with '/' replaces the whole path in the
   * handler's copy, which then removes the file's directory and not the file).
   */
  lemma {:induction false} TransferRemovesLocalCopy(s: Settings, w: World, f: SeedrFile, now: int)
    requires s.downloadPath != []
    requires s.variant.HandlerVariant? ==> f.name == [] || f.name[0] != '/'
    ensures Size(s, w.(calls := w.calls + CallsFor([f], now)), FilePath(s.downloadPath, f)) == None
  {
    var path := FilePath(s.downloadPath, f);
    FileDirShape(s.downloadPath, f);
    var d := FileDir(s.downloadPath, f);
    if f.name == [] || f.name[0] != '/' {
      assert path == d + "/" + f.name;
      assert path[|d|] == '/';
    }
    if s.variant.HandlerVariant? {
      assert path[..|d| + 1] == d + "/";
      assert Under(d, path);
    } else {
      assert '/' in path by {
        if f.name != [] && f.name[0] == '/' {
          assert path[0] == '/';
        } else {
          assert path[|d|] == '/';
        }
      }
      DirnameContains(path);
    }
    assert [f][..0] == [];
  }

  /** One turn of `process_folder`'s first loop: the wanted files and their calls grow by those of `fs[i]`. */
  lemma FilesStep(calls0: seq<Call>, fs: seq<SeedrFile>, i: int, exts: seq<string>, now: int)
    requires 0 <= i < |fs|
    ensures |AcceptedFiles(fs[..i + 1], exts)| == |AcceptedFiles(fs[..i], exts)| + |AcceptedFiles([fs[i]], exts)|
    ensures calls0 + CallsFor(AcceptedFiles(fs[..i + 1], exts), now) ==
            calls0 + CallsFor(AcceptedFiles(fs[..i], exts), now) + CallsFor(AcceptedFiles([fs[i]], exts), now)
  {
    var done := AcceptedFiles(fs[..i], exts);
    var next := AcceptedFiles([fs[i]], exts);
    AcceptedFilesSnoc(fs, i, exts);
    CallsForAppend(done, next, now);
    AppendAssoc(calls0, CallsFor(done, now), CallsFor(next, now));
  }

  /** One turn of `process_folder`'s second loop: the wanted files and their calls grow by those of `ts[j]`. */
  lemma FoldersStep(calls0: seq<Call>, ts: seq<Tree>, j: int, exts: seq<string>, now: int)
    requires 0 <= j < |ts|
    ensures |AcceptedInAll(ts[..j + 1], exts)| == |AcceptedInAll(ts[..j], exts)| + |AcceptedIn(ts[j], exts)|
    ensures calls0 + CallsFor(AcceptedInAll(ts[..j + 1], exts), now) ==
            calls0 + CallsFor(AcceptedInAll(ts[..j], exts), now) + CallsFor(AcceptedIn(ts[j], exts), now)
  {
    var done := AcceptedInAll(ts[..j], exts);
    var next := AcceptedIn(ts[j], exts);
    AcceptedInAllSnoc(ts, j, exts);
    CallsForAppend(done, next, now);
    AppendAssoc(calls0, CallsFor(done, now), CallsFor(next, now));
  }

  /** The walk over one or more Seedr files and folders. */
  class FileHandler {
    const settings: Settings
    var world: World

    constructor(settings: Settings, world: World)
      ensures this.settings == settings && this.world == world
    {
      this.settings := settings;
      this.world := world;
    }

    /** `download_file(file)`: returns the local path. */
    method DownloadFile(f: SeedrFile) returns (path: string)
      modifies this`world
      ensures path == FilePath(settings.downloadPath, f)
      ensures world == old(world).(calls := old(world).calls + [DownloadCall(f)])
    {
      path := FilePath(settings.downloadPath, f);
      world := world.(calls := world.calls + [DownloadCall(f)]);
    }

    /** `upload_file(file)`; the time of the call is `now`. */
    method UploadFile(f: SeedrFile, now: int)
      modifies this`world
      ensures world == old(world).(calls := old(world).calls + [UploadCall(f, now)])
    {
      world := world.(calls := world.calls + [UploadCall(f, now)]);
    }

    /** `process_file(file)`: 1 when the file is wanted and transferred, else 0 with nothing done. */
    method ProcessFile(f: SeedrFile, now: int) returns (n: nat)
      modifies this`world
      ensures n == |AcceptedFiles([f], settings.exts)|
      ensures world == old(world).(calls := old(world).calls + CallsFor(AcceptedFiles([f], settings.exts), now))
      ensures n == 0 ==> world == old(world)
    {
      assert [f][..0] == [];
      if CheckExtension(f.name, settings.exts) {
        var _ := DownloadFile(f);
        UploadFile(f, now);
        n := 1;
        assert AcceptedFiles([f], settings.exts) == [f];
        assert CallsFor([f], now) == [DownloadCall(f), UploadCall(f, now)];
      } else {
        n := 0;
      }
    }

    /**
     * `process_folder(folder)`: the folder's own files first, then each sub-folder; the
     * count is the number of wanted files in the whole folder, and the calls made are
     * those for handling them in that order.
     */
    method ProcessFolder(t: Tree, now: int) returns (n: nat)
      modifies this`world
      ensures n == |AcceptedIn(t, settings.exts)|
      ensures world == old(world).(calls := old(world).calls + CallsFor(AcceptedIn(t, settings.exts), now))
      decreases t, 1
    {
      ghost var own := AcceptedFiles(t.files, settings.exts);
      ghost var below := AcceptedInAll(t.subfolders, settings.exts);
      assert AcceptedIn(t, settings.exts) == own + below;
      CallsForAppend(own, below, now);
      ghost var calls0 := world.calls;
      var m := ProcessFiles(t.files, now);
      var k := ProcessFolders(t.subfolders, now);
      AppendAssoc(calls0, CallsFor(own, now), CallsFor(below, now));
      n := m + k;
    }

    /** The first loop of `process_folder`: `process_file` on each file of the folder, in order. */
    method ProcessFiles(fs: seq<SeedrFile>, now: int) returns (n: nat)
      modifies this`world
      ensures n == |AcceptedFiles(fs, settings.exts)|
      ensures world == old(world).(calls := old(world).calls + CallsFor(AcceptedFiles(fs, settings.exts), now))
    {
      var exts := settings.exts;
      ghost var calls0 := world.calls;
      n := 0;
      var i := 0;
      while i < |fs|
        invariant 0 <= i <= |fs|
        invariant n == |AcceptedFiles(fs[..i], exts)|
        invariant world == old(world).(calls := calls0 + CallsFor(AcceptedFiles(fs[..i], exts), now))
      {
        FilesStep(calls0, fs, i, exts, now);
        var c := ProcessFile(fs[i], now);
        n := n + c;
        i := i + 1;
      }
      assert fs[..i] == fs;
    }

    /** The second loop of `process_folder`: `process_folder` on each sub-folder, in order. */
    method ProcessFolders(ts: seq<Tree>, now: int) returns (n: nat)
      modifies this`world
      ensures n == |AcceptedInAll(ts, settings.exts)|
      ensures world == old(world).(calls := old(world).calls + CallsFor(AcceptedInAll(ts, settings.exts), now))
      decreases ts, 0
    {
      var exts := settings.exts;
      ghost var calls0 := world.calls;
      n := 0;
      var j := 0;
      assert ts[..0] == [];
      while j < |ts|
        invariant 0 <= j <= |ts|
        invariant n == |AcceptedInAll(ts[..j], exts)|
        invariant world.disk == old(world).disk
        invariant world.calls == calls0 + CallsFor(AcceptedInAll(ts[..j], exts), now)
      {
        FoldersStep(calls0, ts, j, exts, now);
        var c := ProcessFolder(ts[j], now);
        n := n + c;
        j := j + 1;
      }
      assert ts[..j] == ts;
    }

    /** `upload(item)`: a file or a whole folder; the count of files transferred. */
    method Upload(item: Item, now: int) returns (n: nat)
      modifies this`world
      ensures n == |AcceptedItem(item, settings.exts)|
      ensures world == old(world).(calls := old(world).calls + CallsFor(AcceptedItem(item, settings.exts), now))
    {
      match item
      case FileItem(f) =>
        n := ProcessFile(f, now);
      case FolderItem(t) =>
        n := ProcessFolder(t, now);
    }
  }

  /** The files `upload(item)` transfers. */
  function AcceptedItem(item: Item, exts: seq<string>): seq<SeedrFile> {
    match item
    case FileItem(f) => AcceptedFiles([f], exts)
    case FolderItem(t) => AcceptedIn(t, exts)
  }
}
