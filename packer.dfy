/** `Packer.Walk`: the packer walks each input path, skips what the
    exclusion filters match, turns every other node into a `wbin.File`
    entry keyed by its true path, then drops directories that hold no file. */
module Packer {
  import opened Common
  import opened Paths
  import Codec

  /** The packer's settings. `files` are the inputs, already absolute;
      `filters` stand for the compiled exclusion patterns, each a test on a
      path. */
  datatype Packer = Packer(
    files: seq<string>,
    out: string,
    force: bool,
    importPath: string,
    varName: string,
    filters: seq<string -> bool>,
    verbose: bool)

  /** `.*\.go$`: any path that ends in ".go". */
  predicate GoSource(path: string) {
    HasSuffix(path, ".go")
  }

  /** `\.DS_Store$` */
  predicate FinderMetadata(path: string) {
    HasSuffix(path, ".DS_Store")
  }

  /** A path matches one of the exclusion patterns. */
  predicate Filtered(p: Packer, path: string) {
    AnyMatches(p.filters, path)
  }

  /** Some test of `filters` accepts `path`, tried in order. */
  predicate AnyMatches(filters: seq<string -> bool>, path: string)
    decreases |filters|
  {
    filters != [] && (filters[0](path) || AnyMatches(filters[1..], path))
  }

  /** `Default()`: sets the runtime package as import path and excludes Go
      sources and Finder metadata; every other setting is kept. */
  function Default(p: Packer): (r: Packer)
    ensures r.importPath == "github.com/shupkg/wbin"
    ensures forall path :: Filtered(r, path) <==> GoSource(path) || FinderMetadata(path)
    ensures r.files == p.files && r.out == p.out && r.force == p.force
    ensures r.varName == p.varName && r.verbose == p.verbose
  {
    var r := p.(importPath := "github.com/shupkg/wbin",
                 filters := [(path: string) => GoSource(path), (path: string) => FinderMetadata(path)]);
    assert r.filters[1..][1..] == [];
    r
  }

  /** `New()`: `Default` applied to a packer with every setting empty. */
  function New(): (r: Packer)
    ensures r.importPath == "github.com/shupkg/wbin"
    ensures r.files == [] && r.out == "" && r.varName == "" && !r.force && !r.verbose
    ensures forall path :: Filtered(r, path) <==> GoSource(path) || FinderMetadata(path)
  {
    Default(Packer([], "", false, "", "", [], false))
  }

  /** What `os.FileInfo` reports about a node, and what `ioutil.ReadFile`
      returns for it (`None` when reading fails). `modTime` is in Unix seconds. */
  datatype Info = Info(name: string, size: int, modTime: int, isDir: bool, contents: Option<seq<Byte>>)

  /** The nodes `filepath.Walk` visits under one input: a node and, for a
      directory, its entries in the order the walk takes them. */
  datatype Tree = Tree(info: Info, children: seq<Tree>)

  /** A `wbin.File` as the packer builds it. */
  datatype Entry = Entry(
    path: string,
    fileName: string,
    fileSize: int,
    fileModTime: int,
    fileIsDir: bool,
    data: string)

  datatype WalkError = ReadFailed(path: string)

  /** What the walk callback does with one node. */
  datatype Decision = Skip | SkipDir | Insert(entry: Entry) | Abort(error: WalkError)

  /** Whether an entry carries a payload: only a non-directory of
      positive size does. */
  predicate HasPayload(isDir: bool, size: int) {
    !isDir && size > 0
  }

  /** The path a node gets inside the embedded file system, given the input
      `root` it was reached from. */
  function VirtualPath(root: string, truePath: string, isDir: bool): string {
    if root == truePath then
      if !isDir then "/" + Base(truePath) else "/"
    else
      var rel := Rel(root, truePath);
      if HasPrefix(rel, "/") then rel else "/" + rel
  }

  /** The virtual path is absolute: "/" for the input directory itself,
      "/" and the base name for an input file, and for a node below the
      input the path relative to it, so that joining it back onto the
      input gives the node's true path. */
  lemma VirtualPathSpec(root: string, truePath: string, isDir: bool)
    ensures var r := VirtualPath(root, truePath, isDir);
            && |r| > 0 && r[0] == '/'
            && (truePath == root && isDir ==> r == "/")
            && (truePath == root && !isDir ==> r == "/" + Base(root))
            && (truePath != root && Under(truePath, root) ==> Join(root, r[1..]) == truePath)
  {
  }

  /** An entry as the packer builds it for a node: metadata copied, payload
      present exactly for non-empty files and decoding back to the file's
      bytes, and no backquote in it, so it fits a raw string literal. */
  ghost predicate Built(e: Entry, root: string, truePath: string, info: Info) {
    && e.path == VirtualPath(root, truePath, info.isDir)
    && e.fileName == info.name
    && e.fileSize == info.size
    && e.fileModTime == info.modTime
    && e.fileIsDir == info.isDir
    && (e.data != "" <==> HasPayload(info.isDir, info.size))
    && (HasPayload(info.isDir, info.size) ==>
          info.contents.Some? && Codec.Unpack(e.data) == Success(info.contents.value))
    && '`' !in e.data
  }

  /** The walk callback for the node at `truePath`. */
  function Decide(p: Packer, root: string, truePath: string, info: Info): Decision {
    if Filtered(p, truePath) then
      if info.isDir then SkipDir else Skip
    else
      var path := VirtualPath(root, truePath, info.isDir);
      if HasPayload(info.isDir, info.size) then
        match info.contents
        case None => Abort(ReadFailed(truePath))
        case Some(bytes) =>
          Insert(Entry(path, info.name, info.size, info.modTime, info.isDir, Codec.Encoded(bytes)))
      else
        Insert(Entry(path, info.name, info.size, info.modTime, info.isDir, ""))
  }

  /** The callback skips a filtered node (and a filtered directory's
      subtree), fails exactly on an unreadable non-empty file, and otherwise
      builds the node's entry. */
  lemma DecideSpec(p: Packer, root: string, truePath: string, info: Info)
    ensures var d := Decide(p, root, truePath, info);
            && (Filtered(p, truePath) ==> d == (if info.isDir then SkipDir else Skip))
            && (!Filtered(p, truePath) ==> d.Insert? || d.Abort?)
            && (d.Abort? <==>
                  !Filtered(p, truePath) && HasPayload(info.isDir, info.size) && info.contents.None?)
            && (d.Abort? ==> d.error == ReadFailed(truePath))
            && (d.Insert? ==> Built(d.entry, root, truePath, info))
  {
    VirtualPathSpec(root, truePath, info.isDir);
    if !Filtered(p, truePath) && HasPayload(info.isDir, info.size) && info.contents.Some? {
      Codec.UnpackEncoded(info.contents.value);
      Codec.EncodedIsRawLiteralSafe(info.contents.value);
    }
  }

  /** What every entry the walk builds satisfies: an absolute virtual path,
      and a payload exactly when it is a non-empty file that decodes. */
  ghost predicate Sound(e: Entry) {
    && |e.path| > 0 && e.path[0] == '/'
    && (e.data != "" <==> HasPayload(e.fileIsDir, e.fileSize))
    && (e.data != "" ==> Codec.Unpack(e.data).Success?)
  }

  /** The keys a list of insertions writes. */
  function KeysOf(out: seq<(string, Entry)>): set<string> {
    set j | 0 <= j < |out| :: out[j].0
  }

  /** `filepath.Walk` over the tree at `path`, with the callback's decisions:
      a node first, then (unless skipped) its children. The result lists the
      insertions `result[truePath] = f` in the order they happen. */
  function Visit(p: Packer, root: string, path: string, t: Tree): (r: Result<seq<(string, Entry)>, WalkError>)
    ensures r.Success? ==> forall j :: 0 <= j < |r.value| ==> !Filtered(p, r.value[j].0)
    ensures Filtered(p, path) ==> r == Success([])
    decreases t
  {
    match Decide(p, root, path, t.info)
    case Skip => Success([])
    case SkipDir => Success([])
    case Abort(e) => Failure(e)
    case Insert(e) =>
      if !t.info.isDir then Success([(path, e)])
      else
        match VisitAll(p, root, path, t.children)
        case Failure(err) => Failure(err)
        case Success(rest) => Success([(path, e)] + rest)
  }

  /** The walk over the entries of the directory at `dir`, one after the other;
      the first failure stops it. */
  function VisitAll(p: Packer, root: string, dir: string, ts: seq<Tree>): (r: Result<seq<(string, Entry)>, WalkError>)
    ensures r.Success? ==> forall j :: 0 <= j < |r.value| ==> !Filtered(p, r.value[j].0)
    decreases ts
  {
    if ts == [] then Success([])
    else
      match Visit(p, root, Join(dir, ts[0].info.name), ts[0])
      case Failure(err) => Failure(err)
      case Success(first) =>
        match VisitAll(p, root, dir, ts[1..])
        case Failure(err) => Failure(err)
        case Success(rest) => Success(first + rest)
  }

  /** The reference meaning of the walk: `k` names an unfiltered node of the
      tree at `path` none of whose ancestors is filtered. */
  ghost predicate Exposed(p: Packer, path: string, t: Tree, k: string)
    decreases t
  {
    !Filtered(p, path) && (k == path || (t.info.isDir && ExposedAmong(p, path, t.children, k)))
  }

  /** `k` is exposed in the tree of one of the entries `ts` of directory `dir`. */
  ghost predicate ExposedAmong(p: Packer, dir: string, ts: seq<Tree>, k: string)
    decreases ts
  {
    ts != [] && (Exposed(p, Join(dir, ts[0].info.name), ts[0], k) || ExposedAmong(p, dir, ts[1..], k))
  }

  lemma KeysOfAppend(a: seq<(string, Entry)>, b: seq<(string, Entry)>)
    ensures KeysOf(a + b) == KeysOf(a) + KeysOf(b)
  {
    var c := a + b;
    forall k | k in KeysOf(c) ensures k in KeysOf(a) + KeysOf(b) {
      var j :| 0 <= j < |c| && c[j].0 == k;
      if j < |a| { assert a[j].0 == k; } else { assert b[j - |a|].0 == k; }
    }
    forall k | k in KeysOf(a) + KeysOf(b) ensures k in KeysOf(c) {
      if k in KeysOf(a) {
        var j :| 0 <= j < |a| && a[j].0 == k;
        assert c[j].0 == k;
      } else {
        var j :| 0 <= j < |b| && b[j].0 == k;
        assert c[|a| + j].0 == k;
      }
    }
  }

  /** Every entry of a list of insertions is sound. */
  ghost predicate AllSound(out: seq<(string, Entry)>) {
    forall j :: 0 <= j < |out| ==> Sound(out[j].1)
  }

  lemma AllSoundAppend(a: seq<(string, Entry)>, b: seq<(string, Entry)>)
    requires AllSound(a) && AllSound(b)
    ensures AllSound(a + b)
  {
    forall j | 0 <= j < |a + b| ensures Sound((a + b)[j].1) {
      if j < |a| { assert (a + b)[j] == a[j]; } else { assert (a + b)[j] == b[j - |a|]; }
    }
  }

  /** Every entry the walk builds is sound. */
  lemma {:induction false} VisitSound(p: Packer, root: string, path: string, t: Tree)
    requires Visit(p, root, path, t).Success?
    ensures AllSound(Visit(p, root, path, t).value)
    decreases t
  {
    var d := Decide(p, root, path, t.info);
    DecideSpec(p, root, path, t.info);
    if d.Insert? {
      var single: seq<(string, Entry)> := [(path, d.entry)];
      assert AllSound(single);
      if t.info.isDir {
        VisitAllSound(p, root, path, t.children);
        AllSoundAppend(single, VisitAll(p, root, path, t.children).value);
      }
    }
  }

  lemma {:induction false} VisitAllSound(p: Packer, root: string, dir: string, ts: seq<Tree>)
    requires VisitAll(p, root, dir, ts).Success?
    ensures AllSound(VisitAll(p, root, dir, ts).value)
    decreases ts
  {
    if ts != [] {
      var path := Join(dir, ts[0].info.name);
      VisitSound(p, root, path, ts[0]);
      VisitAllSound(p, root, dir, ts[1..]);
      AllSoundAppend(Visit(p, root, path, ts[0]).value, VisitAll(p, root, dir, ts[1..]).value);
    }
  }

  /** The walk inserts exactly the exposed nodes of the tree. */
  lemma {:induction false} VisitExposes(p: Packer, root: string, path: string, t: Tree)
    requires Visit(p, root, path, t).Success?
    ensures forall k :: k in KeysOf(Visit(p, root, path, t).value) <==> Exposed(p, path, t, k)
    decreases t
  {
    var d := Decide(p, root, path, t.info);
    DecideSpec(p, root, path, t.info);
    if d.Insert? {
      var single: seq<(string, Entry)> := [(path, d.entry)];
      assert KeysOf(single) == {path} by { assert single[0].0 == path; }
      if t.info.isDir {
        VisitAllExposes(p, root, path, t.children);
        KeysOfAppend(single, VisitAll(p, root, path, t.children).value);
      }
    }
  }

  /** The walk over a directory's entries inserts exactly the nodes exposed
      below one of them. */
  lemma {:induction false} VisitAllExposes(p: Packer, root: string, dir: string, ts: seq<Tree>)
    requires VisitAll(p, root, dir, ts).Success?
    ensures forall k :: k in KeysOf(VisitAll(p, root, dir, ts).value) <==> ExposedAmong(p, dir, ts, k)
    decreases ts
  {
    if ts != [] {
      var path := Join(dir, ts[0].info.name);
      VisitExposes(p, root, path, ts[0]);
      VisitAllExposes(p, root, dir, ts[1..]);
      KeysOfAppend(Visit(p, root, path, ts[0]).value, VisitAll(p, root, dir, ts[1..]).value);
    }
  }

  /** `e` is built from a node at `k` in the tree at `path`, the walk
      having started at `root`. */
  ghost predicate Describes(root: string, path: string, t: Tree, k: string, e: Entry)
    decreases t
  {
    (k == path && Built(e, root, k, t.info)) || (t.info.isDir && DescribesAmong(root, path, t.children, k, e))
  }

  /** `e` is built from a node at `k` in the tree of one of the entries `ts`
      of directory `dir`. */
  ghost predicate DescribesAmong(root: string, dir: string, ts: seq<Tree>, k: string, e: Entry)
    decreases ts
  {
    ts != [] && (Describes(root, Join(dir, ts[0].info.name), ts[0], k, e) || DescribesAmong(root, dir, ts[1..], k, e))
  }

  /** Every insertion of the walk of the tree at `path` is the entry built
      for the node it is keyed by. */
  lemma {:induction false} VisitDescribes(p: Packer, root: string, path: string, t: Tree)
    requires Visit(p, root, path, t).Success?
    ensures var out := Visit(p, root, path, t).value;
            forall j :: 0 <= j < |out| ==> Describes(root, path, t, out[j].0, out[j].1)
    decreases t
  {
    var d := Decide(p, root, path, t.info);
    DecideSpec(p, root, path, t.info);
    if d.Insert? && t.info.isDir {
      var rest := VisitAll(p, root, path, t.children).value;
      VisitAllDescribes(p, root, path, t.children);
      var out := [(path, d.entry)] + rest;
      forall j | 0 <= j < |out| ensures Describes(root, path, t, out[j].0, out[j].1) {
        if j > 0 {
          assert out[j] == rest[j - 1];
        }
      }
    }
  }

  lemma {:induction false} VisitAllDescribes(p: Packer, root: string, dir: string, ts: seq<Tree>)
    requires VisitAll(p, root, dir, ts).Success?
    ensures var out := VisitAll(p, root, dir, ts).value;
            forall j :: 0 <= j < |out| ==> DescribesAmong(root, dir, ts, out[j].0, out[j].1)
    decreases ts
  {
    if ts != [] {
      var path := Join(dir, ts[0].info.name);
      VisitDescribes(p, root, path, ts[0]);
      VisitAllDescribes(p, root, dir, ts[1..]);
      DescribesAppend(root, dir, ts, Visit(p, root, path, ts[0]).value, VisitAll(p, root, dir, ts[1..]).value);
    }
  }

  /** The insertions for the first entry of a directory, then those for the
      others, each describe a node among the directory's entries. */
  lemma DescribesAppend(root: string, dir: string, ts: seq<Tree>, first: seq<(string, Entry)>, rest: seq<(string, Entry)>)
    requires ts != []
    requires forall j :: 0 <= j < |first| ==> Describes(root, Join(dir, ts[0].info.name), ts[0], first[j].0, first[j].1)
    requires forall j :: 0 <= j < |rest| ==> DescribesAmong(root, dir, ts[1..], rest[j].0, rest[j].1)
    ensures var out := first + rest;
            forall j :: 0 <= j < |out| ==> DescribesAmong(root, dir, ts, out[j].0, out[j].1)
  {
    var out := first + rest;
    forall j | 0 <= j < |out| ensures DescribesAmong(root, dir, ts, out[j].0, out[j].1) {
      if j < |first| {
        assert out[j] == first[j];
        AmongHead(root, dir, ts, out[j].0, out[j].1);
      } else {
        assert out[j] == rest[j - |first|];
        AmongTail(root, dir, ts, out[j].0, out[j].1);
      }
    }
  }

  lemma AmongHead(root: string, dir: string, ts: seq<Tree>, k: string, e: Entry)
    requires ts != [] && Describes(root, Join(dir, ts[0].info.name), ts[0], k, e)
    ensures DescribesAmong(root, dir, ts, k, e)
  {
  }

  lemma AmongTail(root: string, dir: string, ts: seq<Tree>, k: string, e: Entry)
    requires ts != [] && DescribesAmong(root, dir, ts[1..], k, e)
    ensures DescribesAmong(root, dir, ts, k, e)
  {
  }

  /** `info` is what `os.Lstat` reports for the node at `k` in the tree at
      `path`: the tree's root, or a node below it, reached through the
      directories' entries as `filepath.Walk` reaches them. */
  ghost predicate NodeAt(path: string, t: Tree, k: string, info: Info)
    decreases t
  {
    (k == path && info == t.info) || (t.info.isDir && NodeAmong(path, t.children, k, info))
  }

  /** `info` is that of the node at `k` in one of the entries `ts` of the
      directory `dir`. */
  ghost predicate NodeAmong(dir: string, ts: seq<Tree>, k: string, info: Info)
    decreases ts
  {
    ts != [] && (NodeAt(Join(dir, ts[0].info.name), ts[0], k, info) || NodeAmong(dir, ts[1..], k, info))
  }

  /** A described entry is built from the `Info` of a node of the tree
      that lies at its key. */
  lemma {:induction false} DescribedIsBuilt(root: string, path: string, t: Tree, k: string, e: Entry)
    requires Describes(root, path, t, k, e)
    ensures exists info :: NodeAt(path, t, k, info) && Built(e, root, k, info)
    decreases t
  {
    if k == path && Built(e, root, k, t.info) {
      assert NodeAt(path, t, k, t.info);
    } else {
      DescribedAmongIsBuilt(root, path, t.children, k, e);
      var info :| NodeAmong(path, t.children, k, info) && Built(e, root, k, info);
      assert NodeAt(path, t, k, info);
    }
  }

  lemma {:induction false} DescribedAmongIsBuilt(root: string, dir: string, ts: seq<Tree>, k: string, e: Entry)
    requires DescribesAmong(root, dir, ts, k, e)
    ensures exists info :: NodeAmong(dir, ts, k, info) && Built(e, root, k, info)
    decreases ts
  {
    var path := Join(dir, ts[0].info.name);
    if Describes(root, path, ts[0], k, e) {
      DescribedIsBuilt(root, path, ts[0], k, e);
      var info :| NodeAt(path, ts[0], k, info) && Built(e, root, k, info);
      assert NodeAmong(dir, ts, k, info);
    } else {
      DescribedAmongIsBuilt(root, dir, ts[1..], k, e);
      var info :| NodeAmong(dir, ts[1..], k, info) && Built(e, root, k, info);
      assert NodeAmong(dir, ts, k, info);
    }
  }

  /** `result[truePath] = f` for each insertion in turn: a later insertion
      of the same key replaces the earlier one. */
  function InsertAll(m: map<string, Entry>, out: seq<(string, Entry)>): (r: map<string, Entry>)
    decreases |out|
  {
    if out == [] then m
    else
      var last := out[|out| - 1];
      InsertAll(m, out[..|out| - 1])[last.0 := last.1]
  }

  /** The insertions add exactly their keys. */
  lemma {:induction false} InsertAllKeys(m: map<string, Entry>, out: seq<(string, Entry)>)
    ensures InsertAll(m, out).Keys == m.Keys + KeysOf(out)
    decreases |out|
  {
    if out != [] {
      var last := out[|out| - 1];
      InsertAllKeys(m, out[..|out| - 1]);
      assert out == out[..|out| - 1] + [last];
      KeysOfAppend(out[..|out| - 1], [last]);
      assert KeysOf([last]) == {last.0} by { assert [last][0].0 == last.0; }
    }
  }

  /** Every value after the insertions was already there or was inserted. */
  lemma {:induction false} InsertAllValues(m: map<string, Entry>, out: seq<(string, Entry)>, k: string)
    requires k in InsertAll(m, out)
    ensures (k in m && InsertAll(m, out)[k] == m[k]) ||
            (exists j :: 0 <= j < |out| && out[j] == (k, InsertAll(m, out)[k]))
    decreases |out|
  {
    if out != [] {
      var last := out[|out| - 1];
      if k != last.0 {
        InsertAllValues(m, out[..|out| - 1], k);
        if !(k in m && InsertAll(m, out)[k] == m[k]) {
          var j :| 0 <= j < |out| - 1 && out[..|out| - 1][j] == (k, InsertAll(m, out)[k]);
          assert out[j] == (k, InsertAll(m, out)[k]);
        }
      } else {
        assert out[|out| - 1] == (k, InsertAll(m, out)[k]);
      }
    }
  }

  /** The callback's `result[truePath] = f`, once per insertion. */
  method Record(m: map<string, Entry>, out: seq<(string, Entry)>) returns (r: map<string, Entry>)
    ensures r == InsertAll(m, out)
  {
    r := m;
    var j := 0;
    while j < |out|
      invariant 0 <= j <= |out|
      invariant r == InsertAll(m, out[..j])
    {
      assert out[..j + 1][..j] == out[..j];
      r := r[out[j].0 := out[j].1];
      j := j + 1;
    }
    assert out[..j] == out;
  }

  /** How one input is walked: from its root, with the root as the base of
      the virtual paths. */
  function RootWalk(p: Packer): (string, Tree) -> Result<seq<(string, Entry)>, WalkError> {
    (root: string, t: Tree) => Visit(p, root, root, t)
  }

  /** The map the walks of the first `n` inputs leave behind, before pruning,
      for a way `walk` of walking one input. */
  function Fold(roots: seq<string>, trees: seq<Tree>, walk: (string, Tree) -> Result<seq<(string, Entry)>, WalkError>, n: nat): Result<map<string, Entry>, WalkError>
    requires n <= |trees| == |roots|
  {
    if n == 0 then Success(map[])
    else Extend(Fold(roots, trees, walk, n - 1), walk(roots[n - 1], trees[n - 1]))
  }

  /** The map the walks of the first `n` inputs leave behind, before pruning
      (`trees[i]` is what the file system holds at `p.files[i]`). */
  function Collect(p: Packer, trees: seq<Tree>, n: nat): Result<map<string, Entry>, WalkError>
    requires n <= |trees| == |p.files|
  {
    Fold(p.files, trees, RootWalk(p), n)
  }

  /** One more input: the walk so far, then this input's insertions, the
      first failure winning. */
  function Extend(acc: Result<map<string, Entry>, WalkError>, visited: Result<seq<(string, Entry)>, WalkError>): Result<map<string, Entry>, WalkError> {
    match acc
    case Failure(e) => Failure(e)
    case Success(m) =>
      match visited
      case Failure(e) => Failure(e)
      case Success(out) => Success(InsertAll(m, out))
  }

  /** Every recorded entry is unfiltered and sound. */
  lemma {:induction false} CollectSound(p: Packer, trees: seq<Tree>, n: nat)
    requires n <= |trees| == |p.files|
    requires Collect(p, trees, n).Success?
    ensures forall k :: k in Collect(p, trees, n).value ==>
              !Filtered(p, k) && Sound(Collect(p, trees, n).value[k])
  {
    if n > 0 {
      CollectSound(p, trees, n - 1);
      var m := Collect(p, trees, n - 1).value;
      var root := p.files[n - 1];
      var out := Visit(p, root, root, trees[n - 1]).value;
      VisitSound(p, root, root, trees[n - 1]);
      forall k | k in InsertAll(m, out) ensures !Filtered(p, k) && Sound(InsertAll(m, out)[k]) {
        InsertAllValues(m, out, k);
      }
    }
  }

  /** Once a walk fails, the later inputs are never walked. */
  lemma {:induction false} FoldFailureStays(roots: seq<string>, trees: seq<Tree>, walk: (string, Tree) -> Result<seq<(string, Entry)>, WalkError>, n: nat, n': nat)
    requires n <= n' <= |trees| == |roots|
    requires Fold(roots, trees, walk, n).Failure?
    ensures Fold(roots, trees, walk, n') == Fold(roots, trees, walk, n)
    decreases n'
  {
    if n' > n {
      FoldFailureStays(roots, trees, walk, n, n' - 1);
    }
  }

  /** `k` is exposed under one of the first `n` inputs. */
  ghost predicate ExposedInput(p: Packer, trees: seq<Tree>, n: nat, k: string)
    requires n <= |trees| == |p.files|
  {
    n > 0 && (ExposedInput(p, trees, n - 1, k) || Exposed(p, p.files[n - 1], trees[n - 1], k))
  }

  /** `e` is the entry built for a node at `k` under one of the first `n`
      inputs, walked from that input. */
  ghost predicate FromInput(p: Packer, trees: seq<Tree>, n: nat, k: string, e: Entry)
    requires n <= |trees| == |p.files|
  {
    n > 0 && (FromInput(p, trees, n - 1, k, e) || Describes(p.files[n - 1], p.files[n - 1], trees[n - 1], k, e))
  }

  /** Every recorded entry is the one built for a node at its key. */
  lemma {:induction false} CollectBuilt(p: Packer, trees: seq<Tree>, n: nat)
    requires n <= |trees| == |p.files|
    requires Collect(p, trees, n).Success?
    ensures forall k :: k in Collect(p, trees, n).value ==> FromInput(p, trees, n, k, Collect(p, trees, n).value[k])
  {
    if n > 0 {
      CollectBuilt(p, trees, n - 1);
      var m := Collect(p, trees, n - 1).value;
      var root := p.files[n - 1];
      var out := Visit(p, root, root, trees[n - 1]).value;
      VisitDescribes(p, root, root, trees[n - 1]);
      forall k | k in InsertAll(m, out) ensures FromInput(p, trees, n, k, InsertAll(m, out)[k]) {
        InsertAllValues(m, out, k);
      }
    }
  }

  /** An entry recorded from an input is built from the `Info` of the node
      at its key in that input's tree, walked from that input. */
  lemma {:induction false} FromInputIsBuilt(p: Packer, trees: seq<Tree>, n: nat, k: string, e: Entry)
    requires n <= |trees| == |p.files|
    requires FromInput(p, trees, n, k, e)
    ensures exists i, info :: 0 <= i < n && NodeAt(p.files[i], trees[i], k, info) && Built(e, p.files[i], k, info)
  {
    if FromInput(p, trees, n - 1, k, e) {
      FromInputIsBuilt(p, trees, n - 1, k, e);
    } else {
      DescribedIsBuilt(p.files[n - 1], p.files[n - 1], trees[n - 1], k, e);
      var info :| NodeAt(p.files[n - 1], trees[n - 1], k, info) && Built(e, p.files[n - 1], k, info);
      assert 0 <= n - 1 < n;
    }
  }

  /** The walks of the inputs record exactly the exposed nodes. */
  lemma {:induction false} CollectExposes(p: Packer, trees: seq<Tree>, n: nat)
    requires n <= |trees| == |p.files|
    requires Collect(p, trees, n).Success?
    ensures forall k :: k in Collect(p, trees, n).value <==> ExposedInput(p, trees, n, k)
  {
    if n > 0 {
      CollectExposes(p, trees, n - 1);
      var root := p.files[n - 1];
      VisitExposes(p, root, root, trees[n - 1]);
      InsertAllKeys(Collect(p, trees, n - 1).value, Visit(p, root, root, trees[n - 1]).value);
    }
  }

  /** Some file entry's virtual path starts with `dir`, as a string. */
  ghost predicate HasFileUnder(m: map<string, Entry>, dir: string) {
    exists k :: k in m && !m[k].fileIsDir && HasPrefix(m[k].path, dir)
  }

  /** An entry pruning keeps: a file, or a directory with a file under it. */
  ghost predicate Kept(m: map<string, Entry>, k: string)
    requires k in m
  {
    !m[k].fileIsDir || HasFileUnder(m, m[k].path)
  }

  /** The pruned map, independent of the order the entries are visited in. */
  ghost function PruneSpec(m: map<string, Entry>): map<string, Entry> {
    map k | k in m && Kept(m, k) :: m[k]
  }

  /** Deleting the directories with no file under them. */
  method Prune(m: map<string, Entry>) returns (r: map<string, Entry>)
    ensures r == PruneSpec(m)
  {
    r := m;
    var todo := m.Keys;
    while todo != {}
      invariant todo <= m.Keys && r.Keys <= m.Keys
      invariant forall k :: k in r ==> r[k] == m[k]
      invariant forall k :: k in m && !m[k].fileIsDir ==> k in r
      invariant forall k :: k in todo ==> k in r
      invariant forall k :: k in m && k !in todo ==> (k in r <==> Kept(m, k))
      decreases todo
    {
      var key :| key in todo;
      var file := r[key];
      if file.fileIsDir {
        var hasChild := false;
        var rest := r.Keys;
        while rest != {} && !hasChild
          invariant rest <= r.Keys
          invariant hasChild ==> HasFileUnder(m, file.path)
          invariant !hasChild ==> forall k :: k in r && k !in rest ==> m[k].fileIsDir || !HasPrefix(m[k].path, file.path)
          decreases rest
        {
          var k :| k in rest;
          if HasPrefix(r[k].path, file.path) && !r[k].fileIsDir {
            hasChild := true;
          }
          rest := rest - {k};
        }
        if !hasChild {
          r := r - {key};
        }
      }
      todo := todo - {key};
    }
    assert r.Keys == PruneSpec(m).Keys;
  }

  /** Pruning never removes a file and never alters an entry. */
  lemma PruneKeepsFiles(m: map<string, Entry>)
    ensures PruneSpec(m).Keys <= m.Keys
    ensures forall k :: k in PruneSpec(m) ==> PruneSpec(m)[k] == m[k]
    ensures forall k :: k in m && !m[k].fileIsDir ==> k in PruneSpec(m)
  {
  }

  /** A directory is removed exactly when no file's path starts with its
      path. */
  lemma PruneRemovesExactly(m: map<string, Entry>, k: string)
    requires k in m && m[k].fileIsDir
    ensures k !in PruneSpec(m) <==>
              forall f :: f in m && !m[f].fileIsDir ==> !HasPrefix(m[f].path, m[k].path)
  {
  }

  /** Pruning a pruned map changes nothing. */
  lemma PruneIdempotent(m: map<string, Entry>)
    ensures PruneSpec(PruneSpec(m)) == PruneSpec(m)
  {
    var once := PruneSpec(m);
    forall d | d in once ensures HasFileUnder(once, once[d].path) <==> HasFileUnder(m, once[d].path) {
      if HasFileUnder(m, once[d].path) {
        var f :| f in m && !m[f].fileIsDir && HasPrefix(m[f].path, once[d].path);
        assert f in once;
      }
    }
  }

  /** A walk that found no file leaves nothing after pruning. */
  lemma PruneNoFiles(m: map<string, Entry>)
    requires forall k :: k in m ==> m[k].fileIsDir
    ensures PruneSpec(m) == map[]
  {
  }

  /** The test is a string prefix, not a path prefix: a file "/ab" keeps a
      directory "/a" alive. */
  lemma PruneStringPrefix()
    ensures var m := map["/t/a" := Entry("/a", "a", 0, 0, true, ""),
                         "/t/ab" := Entry("/ab", "ab", 1, 0, false, "x")];
            "/t/a" in PruneSpec(m)
  {
    var m := map["/t/a" := Entry("/a", "a", 0, 0, true, ""),
                 "/t/ab" := Entry("/ab", "ab", 1, 0, false, "x")];
    assert HasPrefix(m["/t/ab"].path, m["/t/a"].path);
  }

  /** What `Packer.Walk` returns: the first walk failure, or the collected
      map with its empty directories pruned. */
  ghost function WalkSpec(p: Packer, trees: seq<Tree>): Result<map<string, Entry>, WalkError>
    requires |trees| == |p.files|
  {
    match Collect(p, trees, |trees|)
    case Failure(e) => Failure(e)
    case Success(m) => Success(PruneSpec(m))
  }

  /** `Packer.Walk`: each input walked in turn into one map, the first failure
      returned, then empty directories pruned. */
  method Walk(p: Packer, trees: seq<Tree>) returns (r: Result<map<string, Entry>, WalkError>)
    requires |trees| == |p.files|
    ensures r == WalkSpec(p, trees)
  {
    var walked := WalkInputs(p.files, trees, RootWalk(p));
    if walked.Failure? {
      return Failure(walked.error);
    }
    var pruned := Prune(walked.value);
    return Success(pruned);
  }

  /** The loop over the inputs, each walked by `walk`, stopping at the
      first failure. */
  method WalkInputs(roots: seq<string>, trees: seq<Tree>, walk: (string, Tree) -> Result<seq<(string, Entry)>, WalkError>) returns (r: Result<map<string, Entry>, WalkError>)
    requires |trees| == |roots|
    ensures r == Fold(roots, trees, walk, |trees|)
  {
    r := Success(map[]);
    var i := 0;
    while i < |trees| && r.Success?
      invariant 0 <= i <= |trees|
      invariant r == Fold(roots, trees, walk, i)
    {
      var visited := walk(roots[i], trees[i]);
      if visited.Failure? {
        r := Failure(visited.error);
      } else {
        var next := Record(r.value, visited.value);
        r := Success(next);
      }
      i := i + 1;
    }
    if r.Failure? {
      FoldFailureStays(roots, trees, walk, i, |trees|);
    }
  }

  /** What the walk yields: exactly the exposed nodes that are files or
      directories with a file below them, each entry unfiltered, sound, and
      the entry the callback builds for a node at its key. */
  lemma WalkResult(p: Packer, trees: seq<Tree>, k: string)
    requires |trees| == |p.files|
    requires WalkSpec(p, trees).Success?
    ensures var m := Collect(p, trees, |trees|).value;
            var r := WalkSpec(p, trees).value;
            && (k in m <==> ExposedInput(p, trees, |trees|, k))
            && (k in r <==> k in m && Kept(m, k))
            && (k in r ==> r[k] == m[k] && !Filtered(p, k) && Sound(r[k]))
            && (k in r ==> FromInput(p, trees, |trees|, k, r[k]))
  {
    CollectExposes(p, trees, |trees|);
    CollectSound(p, trees, |trees|);
    CollectBuilt(p, trees, |trees|);
  }

  /** Each entry the walk returns is the entry the callback builds from the
      `Info` of the node at its key, in one of the inputs' trees. */
  lemma WalkBuilt(p: Packer, trees: seq<Tree>, k: string)
    requires |trees| == |p.files|
    requires WalkSpec(p, trees).Success? && k in WalkSpec(p, trees).value
    ensures exists i, info :: 0 <= i < |trees| && NodeAt(p.files[i], trees[i], k, info) &&
              Built(WalkSpec(p, trees).value[k], p.files[i], k, info)
  {
    WalkResult(p, trees, k);
    FromInputIsBuilt(p, trees, |trees|, k, WalkSpec(p, trees).value[k]);
  }
}
