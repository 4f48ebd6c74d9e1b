/** From a walked node to what the runtime serves: the entry the packer
    builds, the literal the generated source declares for it, and the bytes
    and metadata a `wbin.File` made from that literal returns. */
module EndToEnd {
  import opened Common
  import Codec
  import opened Packer
  import opened Generator
  import opened Runtime
  import Reader

  /** The field values of a `wbin.File` composite literal; a field the
      literal does not name keeps Go's zero value. */
  datatype Literal = Literal(path: string, fileName: string, fileSize: int, fileModTime: int, fileIsDir: bool, data: string)

  const Zero := Literal("", "", 0, 0, false, "")

  /** The literal the keyed fields denote, each field setting its own part. */
  function Compile(fs: seq<Field>): Literal {
    if fs == [] then Zero
    else
      var l := Compile(fs[1..]);
      match fs[0]
      case FileNameField(name) => l.(fileName := name)
      case ModTimeField(t) => l.(fileModTime := t)
      case SizeField(n) => l.(fileSize := n)
      case DataField(d) => l.(data := d)
      case IsDirField => l.(fileIsDir := true)
  }

  /** What the generated body of an entry declares: name, time and
      directory flag survive; size and payload only for non-empty files; the
      virtual path is never written, so the runtime `Path` is empty. */
  lemma LiteralOfEntry(e: Entry)
    ensures Compile(Fields(e)) ==
              Literal("", e.fileName,
                      if HasPayload(e.fileIsDir, e.fileSize) then e.fileSize else 0,
                      e.fileModTime, e.fileIsDir,
                      if HasPayload(e.fileIsDir, e.fileSize) then e.data else "")
  {
    var fs := Fields(e);
    var tail := fs[2..];
    assert fs[1..][1..] == tail;
    if HasPayload(e.fileIsDir, e.fileSize) {
      assert tail == [SizeField(e.fileSize), DataField(e.data)];
      assert tail[1..] == [DataField(e.data)] && tail[1..][1..] == [];
      assert Compile(tail[1..]) == Zero.(data := e.data);
      assert Compile(tail) == Zero.(data := e.data).(fileSize := e.fileSize);
    } else if e.fileIsDir {
      assert tail == [IsDirField];
      assert tail[1..] == [];
      assert Compile(tail) == Zero.(fileIsDir := true);
    } else {
      assert tail == [];
    }
    assert fs[1..] != [] && fs[1..][0] == ModTimeField(e.fileModTime);
    assert Compile(fs[1..]) == Compile(tail).(fileModTime := e.fileModTime);
    assert Compile(fs) == Compile(fs[1..]).(fileName := e.fileName);
  }

  /** The runtime entry for a literal, as the generated program allocates it. */
  method Instantiate(l: Literal) returns (f: File)
    ensures fresh(f) && f.Valid() && !f.done
    ensures f.path == l.path && f.fileName == l.fileName && f.fileSize == l.fileSize
    ensures f.fileModTime == l.fileModTime && f.fileIsDir == l.fileIsDir && f.data == l.data
  {
    f := new File(l.path, l.fileName, l.fileSize, l.fileModTime, l.fileIsDir, l.data);
  }

  /** Packing then serving gives back every file's bytes: a non-empty file
      decodes to what was read, an empty file and a directory to nothing. */
  lemma ServedContents(e: Entry, root: string, truePath: string, info: Info)
    requires Built(e, root, truePath, info)
    ensures var l := Compile(Fields(e));
            && (HasPayload(info.isDir, info.size) ==> Decoded(l.fileIsDir, l.data) == info.contents.value)
            && (!HasPayload(info.isDir, info.size) ==> Decoded(l.fileIsDir, l.data) == [])
  {
    LiteralOfEntry(e);
    Codec.UnpackEmpty();
  }

  /** Packing then serving keeps the metadata the body writes: the name,
      the time and the directory flag; the size only where it is written. */
  lemma ServedMetadata(e: Entry, root: string, truePath: string, info: Info)
    requires Built(e, root, truePath, info)
    ensures var l := Compile(Fields(e));
            && l.fileName == info.name && l.fileModTime == info.modTime && l.fileIsDir == info.isDir
            && l.fileSize == (if HasPayload(info.isDir, info.size) then info.size else 0)
            && l.path == ""
  {
    LiteralOfEntry(e);
  }

  /** The runtime entry for a packed node answers `Stat` with the node's
      name, time and directory flag, the size only where it is written, and
      the node's bytes as its contents. */
  method ServedStat(e: Entry, root: string, truePath: string, info: Info) returns (f: File)
    requires Built(e, root, truePath, info)
    ensures f.Valid() && !f.done
    ensures f.Name() == info.name && f.ModTime() == info.modTime && f.IsDir() == info.isDir
    ensures f.Size() == (if HasPayload(info.isDir, info.size) then info.size else 0)
    ensures HasPayload(info.isDir, info.size) ==> f.Contents() == info.contents.value
    ensures !HasPayload(info.isDir, info.size) ==> f.Contents() == []
  {
    ServedContents(e, root, truePath, info);
    ServedMetadata(e, root, truePath, info);
    f := Instantiate(Compile(Fields(e)));
  }

  /** The single-file source `PackFile` writes for a built entry declares
      `<prefix><Name>` as a literal that serves the file's bytes and
      metadata. */
  lemma PackFileServes(p: Packer, e: Entry, writeTo: string, root: string, truePath: string, info: Info)
    requires Built(e, root, truePath, info)
    requires NameDefined(e.fileName, false)
    requires '\n' !in GetDir(writeTo) && ' ' !in p.varName && '.' !in Paths.Base(p.importPath)
    ensures var d := Reader.ReadFileSource(FileSource(p, e, writeTo));
            && d.Some?
            && d.value.name == p.varName + GetName(info.name, false)
            && d.value.pkg == GetDir(writeTo)
            && var l := Compile(d.value.fields);
               && l.fileName == info.name && l.fileModTime == info.modTime && l.fileIsDir == info.isDir
               && (HasPayload(info.isDir, info.size) ==> Decoded(l.fileIsDir, l.data) == info.contents.value)
               && (!HasPayload(info.isDir, info.size) ==> Decoded(l.fileIsDir, l.data) == [])
  {
    Reader.ReadFileSourceOf(p, e, writeTo);
    ServedContents(e, root, truePath, info);
    ServedMetadata(e, root, truePath, info);
  }

  /** Every entry the walk returns, once written into the `Fs` literal and
      compiled, serves the name, time, directory flag and bytes of the node
      at its key in one of the inputs' trees. */
  lemma WalkServes(p: Packer, trees: seq<Tree>, k: string)
    requires |trees| == |p.files|
    requires WalkSpec(p, trees).Success? && k in WalkSpec(p, trees).value
    ensures exists i, info :: 0 <= i < |trees| && NodeAt(p.files[i], trees[i], k, info) &&
              var l := Compile(Fields(WalkSpec(p, trees).value[k]));
              && l.fileName == info.name && l.fileModTime == info.modTime && l.fileIsDir == info.isDir
              && (HasPayload(info.isDir, info.size) ==>
                    info.contents.Some? && Decoded(l.fileIsDir, l.data) == info.contents.value)
  {
    var e := WalkSpec(p, trees).value[k];
    WalkBuilt(p, trees, k);
    var i, info :| 0 <= i < |trees| && NodeAt(p.files[i], trees[i], k, info) && Built(e, p.files[i], k, info);
    ServedContents(e, p.files[i], k, info);
    ServedMetadata(e, p.files[i], k, info);
  }

  /** The `Fs` source `PackFs` writes for the walk's result declares one
      element per key, in sorted key order, each the entry's virtual path and
      the fields of its literal. */
  lemma PackFsReadsBack(p: Packer, trees: seq<Tree>, keys: seq<string>)
    requires |trees| == |p.files|
    requires WalkSpec(p, trees).Success?
    requires StrictlySorted(keys) && KeyListing(keys, WalkSpec(p, trees).value)
    requires p.varName == "" ==> NameDefined(p.out, true)
    requires '\n' !in GetDir(p.out) && ' ' !in p.varName && '.' !in Paths.Base(p.importPath)
    ensures var m := WalkSpec(p, trees).value;
            var d := Reader.ReadFsSource(FsSource(p, m, keys));
            && d.Some? && d.value.name == FsVar(p) && |d.value.elements| == |keys|
            && forall i :: 0 <= i < |keys| ==> d.value.elements[i] == (m[keys[i]].path, Fields(m[keys[i]]))
  {
    var m := WalkSpec(p, trees).value;
    forall k | k in keys ensures '`' !in m[k].data {
      WalkBuilt(p, trees, k);
      var i, info :| 0 <= i < |trees| && NodeAt(p.files[i], trees[i], k, info) && Built(m[k], p.files[i], k, info);
    }
    Reader.ReadFsSourceOf(p, m, keys);
  }

  /** Every directory input is packed under the virtual path `/`. So with
      two directory inputs, the `Fs` literal `PackFs` writes names the key
      `"/"` twice, which a Go map literal does not allow. */
  lemma RootDirectoriesShareKey(p: Packer, fs: map<string, Entry>, ks: seq<string>, a: nat, b: nat, ia: Info, ib: Info)
    requires p.varName == "" ==> NameDefined(p.out, true)
    requires forall k :: k in ks ==> k in fs
    requires forall k :: k in ks ==> '`' !in fs[k].data
    requires '\n' !in GetDir(p.out) && ' ' !in p.varName && '.' !in Paths.Base(p.importPath)
    requires a < b < |ks|
    requires Built(fs[ks[a]], ks[a], ks[a], ia) && ia.isDir
    requires Built(fs[ks[b]], ks[b], ks[b], ib) && ib.isDir
    ensures var d := Reader.ReadFsSource(FsSource(p, fs, ks));
            && d.Some? && |d.value.elements| == |ks|
            && d.value.elements[a].0 == d.value.elements[b].0 == "/"
  {
    Reader.ReadFsSourceOf(p, fs, ks);
  }

  /** `Prepare` as the source writes it. */
  function PrepareAsWritten(isDir: bool, data: string): Codec.Prepared {
    if isDir then Codec.Decoded([]) else Codec.InflateAsWritten(data)
  }

  /** As written, serving a packed empty file fails: its literal has no
      payload, `gzip.NewReader` rejects the empty stream, and `ReadAll` is
      handed the nil reader. */
  lemma EmptyFilePanicsAsWritten(e: Entry, root: string, truePath: string, info: Info)
    requires Built(e, root, truePath, info)
    requires !info.isDir && info.size == 0
    ensures var l := Compile(Fields(e)); PrepareAsWritten(l.fileIsDir, l.data) == Codec.Panic
  {
    LiteralOfEntry(e);
    Codec.UnpackEmpty();
  }

  /** A concrete case: the empty file "/e" packed as an input of its own. */
  lemma EmptyFileExample()
    ensures var l := Compile(Fields(ExampleEntry));
            Built(ExampleEntry, "/e", "/e", ExampleInfo) && PrepareAsWritten(l.fileIsDir, l.data) == Codec.Panic
  {
    ExampleBuilt();
    EmptyFilePanicsAsWritten(ExampleEntry, "/e", "/e", ExampleInfo);
  }

  const ExampleInfo := Info("e", 0, 0, false, Some([]))
  const ExampleEntry := Entry("/e", "e", 0, 0, false, "")

  lemma ExampleBuilt()
    ensures Built(ExampleEntry, "/e", "/e", ExampleInfo)
  {
    ExampleBase();
    assert VirtualPath("/e", "/e", false) == "/e";
  }

  lemma ExampleBase()
    ensures Paths.Base("/e") == "e"
  {
    assert Paths.StripTrailingSlashes("/e") == "/e";
    assert "/e"[..1] == "/";
    assert Paths.LastElement("/") == [];
  }

  /** The keys of a packed map are virtual paths, which begin with '/'; a
      directory's name does not, so the name-prefix test of `Readdir` matches
      no key and every directory lists as empty. */
  lemma ReaddirOfPackedFs(m: map<string, File>, name: string)
    requires forall k :: k in m ==> |k| > 0 && k[0] == '/'
    requires |name| > 0 && name[0] != '/'
    ensures MatchingKeys(m, name) == {}
    ensures forall c :: Listing(m, name, c) ==> c == []
  {
    forall c | Listing(m, name, c) ensures c == [] {
      var ks :| MatchingListing(m, name, ks) && InMap(m, ks) && c == Values(m, ks);
      assert |ks| == |multiset(ks)| == 0;
    }
  }
}
