/** The runtime package `wbin`: a read-only `http.FileSystem` over the map
    the generated source declares. Each `File` decodes its payload lazily and
    caches it; each handle `Open` returns has its own read position and its
    own cached directory listing. */
module Runtime {
  import opened Common
  import Codec

  /** `os.ErrNotExist` and the errors of `bytes.Reader.Seek`. */
  datatype FsError = ErrNotExist | InvalidWhence | NegativePosition

  /** `os.FileMode(0444)`: read permission for everyone. */
  const ReadOnlyMode: int := 4 * 64 + 4 * 8 + 4

  /** What `Prepare` leaves in the cache of an entry once it has run:
      nothing for a directory, the decoded payload for anything else. */
  function Decoded(isDir: bool, data: string): seq<Byte> {
    if isDir then [] else Codec.Inflate(data)
  }

  /** One entry of the file system: the fields the generated literal sets,
      the cache `v`, and `done` for the `sync.Once` guarding the decode.
      `decodes` counts how often the payload has been decoded. */
  class File {
    const path: string
    const fileName: string
    const fileSize: int
    const fileModTime: int
    const fileIsDir: bool
    const data: string
    var v: seq<Byte>
    var done: bool
    ghost var decodes: nat

    /** The cache holds the decoded payload once the guard has fired, and
        nothing before. */
    ghost predicate Valid()
      reads this
    {
      v == (if done then Decoded(fileIsDir, data) else [])
    }

    /** A `&wbin.File{...}` literal: the cache empty, the guard armed. */
    constructor (path: string, fileName: string, fileSize: int, fileModTime: int, fileIsDir: bool, data: string)
      ensures this.path == path && this.fileName == fileName && this.fileSize == fileSize
      ensures this.fileModTime == fileModTime && this.fileIsDir == fileIsDir && this.data == data
      ensures v == [] && !done && decodes == 0
      ensures Valid()
    {
      this.path := path;
      this.fileName := fileName;
      this.fileSize := fileSize;
      this.fileModTime := fileModTime;
      this.fileIsDir := fileIsDir;
      this.data := data;
      v := [];
      done := false;
      decodes := 0;
    }

    /** The bytes every `Prepare` returns. */
    function Contents(): seq<Byte> {
      Decoded(fileIsDir, data)
    }

    /** `Prepare`: decode on the first call after creation or `Reset`, then
        return the cache. A directory is never decoded. */
    method Prepare() returns (b: seq<Byte>)
      requires Valid()
      modifies this
      ensures Valid() && done
      ensures b == v == Contents()
      ensures decodes == old(decodes) + (if old(done) || fileIsDir then 0 else 1)
    {
      if !done {
        if !fileIsDir {
          v := Codec.Inflate(data);
          decodes := decodes + 1;
        }
        done := true;
      }
      b := v;
    }

    /** `Bytes` is `Prepare`. */
    method Bytes() returns (b: seq<Byte>)
      requires Valid()
      modifies this
      ensures Valid() && done
      ensures b == v == Contents()
      ensures decodes == old(decodes) + (if old(done) || fileIsDir then 0 else 1)
    {
      b := Prepare();
    }

    /** `Reset`: the cache cut to length 0 and the guard re-armed. */
    method Reset()
      modifies this
      ensures v == [] && !done && decodes == old(decodes)
      ensures Valid()
    {
      v := v[..0];
      done := false;
    }

    function Name(): string {
      fileName
    }

    function Size(): int {
      fileSize
    }

    function Mode(): (m: int)
      ensures m == ReadOnlyMode
    {
      ReadOnlyMode
    }

    /** The modification time, in seconds since the Unix epoch. */
    function ModTime(): int {
      fileModTime
    }

    function IsDir(): bool {
      fileIsDir
    }
  }

  /** Two `Prepare` calls in a row decode once and return the same bytes. */
  method PrepareTwice(f: File) returns (first: seq<Byte>, second: seq<Byte>)
    requires f.Valid()
    modifies f
    ensures first == second == f.Contents()
    ensures f.decodes <= old(f.decodes) + 1
  {
    first := f.Prepare();
    second := f.Prepare();
  }

  /** After `Reset`, the next `Prepare` decodes again. */
  method ResetThenPrepare(f: File) returns (b: seq<Byte>)
    requires f.Valid() && !f.fileIsDir
    modifies f
    ensures b == f.Contents()
    ensures f.decodes == old(f.decodes) + 1
  {
    f.Reset();
    b := f.Prepare();
  }

  /** The state `Prepare` leaves an entry in, given whether its guard had
      fired and how often it had been decoded before. */
  ghost predicate Prepared(f: File, wasDone: bool, decodesBefore: nat)
    reads f
  {
    f.done && f.decodes == decodesBefore + (if wasDone || f.fileIsDir then 0 else 1)
  }

  /** Two handles on the same name: the payload is decoded at most once,
      and both read the same bytes. */
  method OpenTwice(fs: Fs, name: string) returns (first: HttpFile?, second: HttpFile?)
    requires fs.Valid()
    modifies if name in fs.entries then {fs.entries[name]} else {}
    ensures name in fs.entries ==>
              && first != null && second != null && first != second
              && first.content == second.content == fs.entries[name].Contents()
              && fs.entries[name].decodes <= old(fs.entries[name].decodes) + 1
    ensures name !in fs.entries ==> first == null && second == null
  {
    var err;
    first, err := fs.Open(name);
    second, err := fs.Open(name);
  }

  /** The keys of `m` that start with `prefix`. */
  function MatchingKeys(m: map<string, File>, prefix: string): set<string> {
    set k | k in m && HasPrefix(k, prefix)
  }

  /** `Fs`: the map the generated source declares. */
  class Fs {
    const entries: map<string, File>

    ghost predicate Valid()
      reads this, entries.Values
    {
      forall k :: k in entries ==> entries[k].Valid()
    }

    constructor (entries: map<string, File>)
      requires forall k :: k in entries ==> entries[k].Valid()
      ensures this.entries == entries
      ensures Valid()
    {
      this.entries := entries;
    }

    /** `Open`: a missing name is `ErrNotExist`; otherwise a new handle reading
        the entry's prepared bytes from the start. */
    method Open(name: string) returns (h: HttpFile?, err: Option<FsError>)
      requires Valid()
      modifies if name in entries then {entries[name]} else {}
      ensures Valid()
      ensures err == Some(ErrNotExist) <==> name !in entries
      ensures err.None? <==> name in entries
      ensures name !in entries ==> h == null
      ensures name in entries ==> Prepared(entries[name], old(entries[name].done), old(entries[name].decodes))
      ensures name in entries ==>
                && h != null && fresh(h) && h.Valid()
                && h.fs == this && h.file == entries[name]
                && h.content == entries[name].Contents()
                && h.offset == 0 && !h.listed && h.children == []
    {
      if name !in entries {
        return null, Some(ErrNotExist);
      }
      var file := entries[name];
      var bytes := file.Prepare();
      h := new HttpFile(this, file, bytes);
      err := None;
    }

    /** `ReadBytes`: `Open`, then read the handle to the end. */
    method ReadBytes(name: string) returns (b: seq<Byte>, err: Option<FsError>)
      requires Valid()
      modifies if name in entries then {entries[name]} else {}
      ensures Valid()
      ensures err == Some(ErrNotExist) <==> name !in entries
      ensures err.None? <==> name in entries
      ensures name in entries ==> b == entries[name].Contents()
      ensures name in entries ==> Prepared(entries[name], old(entries[name].done), old(entries[name].decodes))
      ensures name !in entries ==> b == []
    {
      var h;
      h, err := Open(name);
      if h == null {
        return [], err;
      }
      b := [];
      var eof := false;
      while !eof
        invariant Valid() && h.Valid()
        invariant h.content == entries[name].Contents()
        invariant Prepared(entries[name], old(entries[name].done), old(entries[name].decodes))
        invariant 0 <= h.offset <= |h.content| && b == h.content[..h.offset]
        invariant eof ==> h.offset == |h.content|
        decreases |h.content| - h.offset, !eof
      {
        var chunk;
        chunk, eof := h.Read(512);
        b := b + chunk;
      }
      assert h.content[..h.offset] == h.content;
    }
  }

  /** `Readdir` of the handle, with the meaning `http.File` gives it (that
      of `os.File.Readdir`): the first `count` of its sorted entries, or all
      of them when `count <= 0`. */
  function Take(children: seq<File>, count: int): (r: seq<File>)
    ensures count > 0 ==> |r| == Min(count, |children|)
    ensures count <= 0 ==> |r| == |children|
    ensures r == children[..|r|]
  {
    if count <= 0 then children else children[..Min(count, |children|)]
  }

  /** `Readdir` as written: the length is `count` capped at the number of
      entries, and `make` panics (`None`) on a negative length. */
  function ReaddirAsWritten(children: seq<File>, count: int): Option<seq<File>> {
    var l := if count > |children| then |children| else count;
    if l < 0 then None else Some(children[..l])
  }

  /** `http.FileServer` lists a directory with `Readdir(-1)`: as written,
      that panics whatever the directory holds. */
  lemma ReaddirAllPanicsAsWritten(children: seq<File>)
    ensures ReaddirAsWritten(children, -1) == None
  {
  }

  /** As written, `Readdir(0)` lists nothing, where `http.File` (like
      `os.File.Readdir`) asks for every entry. */
  lemma {:induction false} ReaddirZeroAsWritten(children: seq<File>)
    ensures ReaddirAsWritten(children, 0) == Some([])
    ensures Take(children, 0) == children
  {
    assert children[..0] == [];
  }

  /** For a positive `count` the corrected listing is the one written. */
  lemma TakeAgreesAsWritten(children: seq<File>, count: int)
    requires count > 0
    ensures ReaddirAsWritten(children, count) == Some(Take(children, count))
  {
  }

  /** `httpFile`: the handle `Open` returns. `content` is what its
      `bytes.Reader` reads and `offset` the reader's position; `children` is
      the listing, computed once (`listed`) on the first `Readdir`. */
  class HttpFile {
    const fs: Fs
    const file: File
    const content: seq<Byte>
    var offset: int
    var children: seq<File>
    var listed: bool

    ghost predicate Valid()
      reads this
    {
      && offset >= 0
      && (!listed ==> children == [])
      && (listed ==> Listing(fs.entries, file.fileName, children))
    }

    constructor (fs: Fs, file: File, content: seq<Byte>)
      ensures this.fs == fs && this.file == file && this.content == content
      ensures offset == 0 && children == [] && !listed
      ensures Valid()
    {
      this.fs := fs;
      this.file := file;
      this.content := content;
      offset := 0;
      children := [];
      listed := false;
    }

    /** `Read` on the reader: up to `room` bytes from the position on;
        at or past the end, nothing and end of file. */
    method Read(room: nat) returns (chunk: seq<Byte>, eof: bool)
      requires Valid()
      modifies this
      ensures Valid()
      ensures children == old(children) && listed == old(listed)
      ensures eof <==> old(offset) >= |content|
      ensures eof ==> chunk == [] && offset == old(offset)
      ensures !eof ==>
                && offset == old(offset) + Min(room, |content| - old(offset))
                && chunk == content[old(offset)..offset]
    {
      if offset >= |content| {
        return [], true;
      }
      var n := Min(room, |content| - offset);
      chunk := content[offset..offset + n];
      offset := offset + n;
      eof := false;
    }

    /** `Seek`: from the start (0), the position (1) or the end (2). Any
        other `whence`, or a negative target, is an error and moves nothing. */
    method Seek(delta: int, whence: int) returns (pos: int, err: Option<FsError>)
      requires Valid()
      modifies this
      ensures Valid()
      ensures children == old(children) && listed == old(listed)
      ensures whence !in {0, 1, 2} ==> err == Some(InvalidWhence) && pos == 0 && offset == old(offset)
      ensures whence in {0, 1, 2} ==>
                var target := SeekTarget(old(offset), |content|, delta, whence);
                if target < 0 then err == Some(NegativePosition) && pos == 0 && offset == old(offset)
                else err.None? && pos == target && offset == target
    {
      if whence != 0 && whence != 1 && whence != 2 {
        return 0, Some(InvalidWhence);
      }
      var target := SeekTarget(offset, |content|, delta, whence);
      if target < 0 {
        return 0, Some(NegativePosition);
      }
      offset := target;
      return target, None;
    }

    /** `Close` always succeeds. */
    method Close() returns (err: Option<FsError>)
      ensures err.None?
    {
      err := None;
    }

    /** `Stat` returns the handle's own entry. */
    method Stat() returns (info: File, err: Option<FsError>)
      ensures info == file && err.None?
    {
      info, err := file, None;
    }

    /** `Readdir`: nothing for a file handle; for a directory handle the
        listing (built on the first call) cut to its first `count` entries,
        or the whole listing for `count <= 0`. */
    method Readdir(count: int) returns (result: seq<File>)
      requires Valid()
      modifies this
      ensures Valid()
      ensures offset == old(offset)
      ensures !file.fileIsDir ==> result == [] && children == old(children) && listed == old(listed)
      ensures file.fileIsDir ==> listed && result == Take(children, count)
      ensures old(listed) ==> children == old(children)
    {
      if !file.fileIsDir {
        return [];
      }
      if !listed {
        var found := Children(fs.entries, file.fileName);
        children := found;
        listed := true;
      }
      result := Take(children, count);
    }
  }

  /** The position `Seek` asks for. */
  function SeekTarget(offset: int, size: int, delta: int, whence: int): int {
    if whence == 0 then delta
    else if whence == 1 then offset + delta
    else size + delta
  }

  /** The entries at the keys `ks`, in that order. */
  function Values(m: map<string, File>, ks: seq<string>): (r: seq<File>)
    requires forall k :: k in ks ==> k in m
    ensures |r| == |ks|
    ensures forall i :: 0 <= i < |ks| ==> r[i] == m[ks[i]]
  {
    if ks == [] then [] else Values(m, ks[..|ks| - 1]) + [m[ks[|ks| - 1]]]
  }

  /** `ks` lists the keys of `m` that start with `prefix`, each once. */
  ghost predicate MatchingListing(m: map<string, File>, prefix: string, ks: seq<string>) {
    multiset(ks) == multiset(MatchingKeys(m, prefix))
  }

  /** One element per key of `m` that starts with `prefix`, each the entry
      at that key. */
  ghost predicate Gathered(m: map<string, File>, prefix: string, children: seq<File>) {
    exists ks :: MatchingListing(m, prefix, ks) && InMap(m, ks) && children == Values(m, ks)
  }

  ghost predicate InMap(m: map<string, File>, ks: seq<string>) {
    forall k :: k in ks ==> k in m
  }

  /** A directory listing as `Readdir` builds it: the gathered entries,
      ordered by name. */
  ghost predicate Listing(m: map<string, File>, prefix: string, children: seq<File>) {
    Gathered(m, prefix, children) && SortedBy(children, (f: File) => f.fileName)
  }

  /** The loop of `Readdir` over the map; `keys` are the keys it took, in
      the order it took them. */
  method Gather(m: map<string, File>, prefix: string) returns (found: seq<File>, keys: seq<string>)
    ensures MatchingListing(m, prefix, keys) && InMap(m, keys) && found == Values(m, keys)
    ensures Gathered(m, prefix, found)
  {
    found, keys := [], [];
    var rest := m.Keys;
    ghost var seen: set<string> := {};
    while rest != {}
      invariant rest <= m.Keys
      invariant seen <= MatchingKeys(m, prefix)
      invariant forall k :: k in MatchingKeys(m, prefix) ==> (k in seen <==> k !in rest)
      invariant multiset(keys) == multiset(seen)
      invariant InMap(m, keys) && found == Values(m, keys)
      decreases rest
    {
      var key :| key in rest;
      if HasPrefix(key, prefix) {
        assert key !in seen;
        assert multiset(seen + {key}) == multiset(seen) + multiset{key};
        found := found + [m[key]];
        keys := keys + [key];
        seen := seen + {key};
      }
      rest := rest - {key};
    }
    assert seen == MatchingKeys(m, prefix);
  }

  lemma {:induction false} ValuesAppend(m: map<string, File>, a: seq<string>, b: seq<string>)
    requires InMap(m, a) && InMap(m, b)
    ensures InMap(m, a + b) && Values(m, a + b) == Values(m, a) + Values(m, b)
  {
  }

  /** Reordering a listing reorders the keys it came from: a permutation `b`
      of the entries at `ks` is the entries at a permutation of `ks`. */
  lemma {:induction false} PermutedKeys(m: map<string, File>, ks: seq<string>, b: seq<File>) returns (ks': seq<string>)
    requires InMap(m, ks)
    requires multiset(Values(m, ks)) == multiset(b)
    ensures multiset(ks') == multiset(ks) && InMap(m, ks') && b == Values(m, ks')
    decreases |b|
  {
    if b == [] {
      assert |Values(m, ks)| == |multiset(Values(m, ks))| == 0;
      ks' := [];
    } else {
      var last, init := b[|b| - 1], b[..|b| - 1];
      assert b == init + [last];
      assert multiset(b) == multiset(init) + multiset{last};
      assert last in Values(m, ks) by {
        assert last in multiset(Values(m, ks));
      }
      var j :| 0 <= j < |ks| && Values(m, ks)[j] == last;
      RemoveKey(m, ks, j);
      var front := PermutedKeys(m, ks[..j] + ks[j + 1..], init);
      ks' := front + [ks[j]];
      PutBack(m, ks, j, front);
    }
  }

  /** Keys that list the others than `ks[j]`, then `ks[j]`, list `ks`. */
  lemma PutBack(m: map<string, File>, ks: seq<string>, j: nat, front: seq<string>)
    requires InMap(m, ks) && j < |ks|
    requires InMap(m, front) && multiset(front) == multiset(ks) - multiset{ks[j]}
    ensures var ks' := front + [ks[j]];
            && multiset(ks') == multiset(ks) && InMap(m, ks')
            && Values(m, ks') == Values(m, front) + [m[ks[j]]]
  {
    assert multiset(front + [ks[j]]) == multiset(front) + multiset{ks[j]};
    assert ks[j] in multiset(ks);
    ValuesAppend(m, front, [ks[j]]);
  }

  /** Taking the key at `j` out of `ks` takes its entry out of the listing. */
  lemma RemoveKey(m: map<string, File>, ks: seq<string>, j: nat)
    requires InMap(m, ks) && j < |ks|
    ensures var others := ks[..j] + ks[j + 1..];
            && InMap(m, others)
            && multiset(others) == multiset(ks) - multiset{ks[j]}
            && multiset(Values(m, others)) == multiset(Values(m, ks)) - multiset{m[ks[j]]}
  {
    var others := ks[..j] + ks[j + 1..];
    RemoveAt(ks, j);
    var vs := Values(m, ks);
    assert Values(m, others) == vs[..j] + vs[j + 1..];
    RemoveAt(vs, j);
  }

  /** Taking the element at `j` out of a sequence takes one of it out of its
      multiset. */
  lemma RemoveAt<T>(s: seq<T>, j: nat)
    requires j < |s|
    ensures multiset(s[..j] + s[j + 1..]) == multiset(s) - multiset{s[j]}
  {
    assert s == s[..j] + [s[j]] + s[j + 1..];
  }

  /** Reordering a gathered listing keeps it gathered. */
  lemma GatheredPermutation(m: map<string, File>, prefix: string, a: seq<File>, b: seq<File>)
    requires Gathered(m, prefix, a)
    requires multiset(a) == multiset(b)
    ensures Gathered(m, prefix, b)
  {
    var ks :| MatchingListing(m, prefix, ks) && InMap(m, ks) && a == Values(m, ks);
    var ks' := PermutedKeys(m, ks, b);
    assert MatchingListing(m, prefix, ks');
  }

  /** The loop of `Readdir` over the map, then `sort.Sort(h.c)` by name. */
  method Children(m: map<string, File>, prefix: string) returns (c: seq<File>)
    ensures Listing(m, prefix, c)
  {
    var found, keys := Gather(m, prefix);
    c := SortBy(found, (f: File) => f.fileName);
    GatheredPermutation(m, prefix, found, c);
  }
}
