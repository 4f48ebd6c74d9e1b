/** Reading the text `PackFile` writes: a parser for the package clause,
    the optional import, the variable declaration and the keyed fields of
    its `wbin.File` literal. The round-trip lemmas say the generated source
    declares exactly what the generator meant it to. */
module Reader {
  import opened Common
  import opened Paths
  import opened Packer
  import opened Generator

  /* ---------- tokens ---------- */

  predicate StartsWith(s: string, p: string) {
    |p| <= |s| && s[..|p|] == p
  }

  /** `s` after the fixed text `p`. */
  function Expect(s: string, p: string): (r: Option<string>)
    ensures r.Some? <==> StartsWith(s, p)
    ensures r.Some? ==> s == p + r.value
  {
    if StartsWith(s, p) then
      assert s == s[..|p|] + s[|p|..];
      Some(s[|p|..])
    else None
  }

  lemma ExpectOf(p: string, rest: string)
    ensures Expect(p + rest, p) == Some(rest)
  {
    assert (p + rest)[..|p|] == p;
    assert (p + rest)[|p|..] == rest;
  }

  /** The text before the first `c`, and the text after it. */
  function Until(s: string, c: char): (r: Option<(string, string)>)
    ensures r.Some? ==> c !in r.value.0 && s == r.value.0 + [c] + r.value.1
    ensures r.None? ==> c !in s
    decreases |s|
  {
    if s == [] then None
    else if s[0] == c then
      assert s == [] + [c] + s[1..];
      Some(([], s[1..]))
    else
      match Until(s[1..], c)
      case None => None
      case Some((a, b)) =>
        assert s == [s[0]] + s[1..];
        Some(([s[0]] + a, b))
  }

  /** A `c` that the first part does not hold ends it. */
  lemma {:induction false} UntilOf(a: string, c: char, b: string)
    requires c !in a
    ensures Until(a + [c] + b, c) == Some((a, b))
    decreases |a|
  {
    var s := a + [c] + b;
    if a == [] {
      assert s == [c] + b;
      assert s[1..] == b;
    } else {
      UntilOf(a[1..], c, b);
      assert s[0] == a[0];
      assert s[1..] == a[1..] + [c] + b;
      assert [a[0]] + a[1..] == a;
    }
  }

  /* ---------- literals ---------- */

  /** The characters of a Go string literal up to its closing quote,
      unescaped, and the text after the quote. */
  function ReadEscaped(s: string): (r: Option<(string, string)>)
    ensures r.Some? ==> |r.value.1| < |s|
    decreases |s|
  {
    if s == [] then None
    else if s[0] == '"' then Some(([], s[1..]))
    else if s[0] == '\\' then
      if |s| >= 2 && (s[1] == '"' || s[1] == '\\') then
        match ReadEscaped(s[2..])
        case None => None
        case Some((v, rest)) => Some(([s[1]] + v, rest))
      else None
    else
      match ReadEscaped(s[1..])
      case None => None
      case Some((v, rest)) => Some(([s[0]] + v, rest))
  }

  /** A quoted literal at the head of `s`, and the text after it. */
  function ReadQuoted(s: string): (r: Option<(string, string)>)
    ensures r.Some? ==> |r.value.1| < |s|
  {
    if s != [] && s[0] == '"' then ReadEscaped(s[1..]) else None
  }

  lemma {:induction false} ReadEscapedOf(x: string, rest: string)
    ensures ReadEscaped(Escaped(x) + "\"" + rest) == Some((x, rest))
    decreases |x|
  {
    var s := Escaped(x) + "\"" + rest;
    if x == [] {
      assert s == "\"" + rest;
      assert s[1..] == rest;
    } else {
      ReadEscapedOf(x[1..], rest);
      var t := Escaped(x[1..]) + "\"" + rest;
      if x[0] == '"' || x[0] == '\\' {
        assert s == ['\\', x[0]] + t;
        assert s[2..] == t;
      } else {
        assert s == [x[0]] + t;
        assert s[1..] == t;
      }
      assert [x[0]] + x[1..] == x;
    }
  }

  /** What `%q` writes reads back, up to the closing quote. */
  lemma ReadQuotedOf(x: string, rest: string)
    ensures ReadQuoted(Quote(x) + rest) == Some((x, rest))
  {
    var s := Quote(x) + rest;
    assert s[1..] == Escaped(x) + "\"" + rest;
    ReadEscapedOf(x, rest);
  }

  /** A `%d` number ended by a comma, and the text after the comma. */
  function ReadNumber(s: string): (r: Option<(int, string)>)
    ensures r.Some? ==> |r.value.1| < |s|
  {
    match Until(s, ',')
    case None => None
    case Some((digits, rest)) =>
      match ParseDecimal(digits)
      case None => None
      case Some(n) => Some((n, rest))
  }

  lemma NoCommaInDecimal(n: int)
    ensures ',' !in Decimal(n)
  {
    var d := Digits(if n < 0 then -n else n);
    assert forall c | c in d :: '0' <= c <= '9';
    assert Decimal(n) == if n < 0 then "-" + d else d;
  }

  lemma ReadNumberOf(n: int, rest: string)
    ensures ReadNumber(Decimal(n) + "," + rest) == Some((n, rest))
  {
    NoCommaInDecimal(n);
    UntilOf(Decimal(n), ',', rest);
    DecimalRoundTrip(n);
  }

  /* ---------- fields ---------- */

  /** One keyed field, and the text after it. */
  function ReadField(s: string): (r: Option<(Field, string)>)
    ensures r.Some? ==> |r.value.1| < |s|
  {
    if StartsWith(s, "FileName:") then
      match ReadQuoted(s[9..])
      case None => None
      case Some((name, rest)) =>
        match Expect(rest, ",\n")
        case None => None
        case Some(after) => Some((FileNameField(name), after))
    else if StartsWith(s, "FileModTime:") then
      match ReadNumber(s[12..])
      case None => None
      case Some((t, rest)) =>
        match Expect(rest, "\n")
        case None => None
        case Some(after) => Some((ModTimeField(t), after))
    else if StartsWith(s, "FileSize:") then
      match ReadNumber(s[9..])
      case None => None
      case Some((n, rest)) =>
        match Expect(rest, "\n")
        case None => None
        case Some(after) => Some((SizeField(n), after))
    else if StartsWith(s, "Data:`") then
      match Until(s[6..], '`')
      case None => None
      case Some((d, rest)) =>
        match Expect(rest, ",\n\n")
        case None => None
        case Some(after) => Some((DataField(d), after))
    else if StartsWith(s, "FileIsDir:true,\n") then
      Some((IsDirField, s[16..]))
    else None
  }

  /** A field can be written and read back: a raw string literal holds no
      backquote. */
  predicate Readable(f: Field) {
    f.DataField? ==> '`' !in f.data
  }

  lemma PrefixOfAppend(a: string, b: string, n: nat)
    requires n <= |a|
    ensures (a + b)[..n] == a[..n]
  {
  }

  lemma ReadFileNameOf(name: string, tail: string)
    ensures ReadField(RenderField(FileNameField(name)) + tail) == Some((FileNameField(name), tail))
  {
    var s := RenderField(FileNameField(name)) + tail;
    assert s == "FileName:" + (Quote(name) + (",\n" + tail));
    ExpectOf("FileName:", Quote(name) + (",\n" + tail));
    ReadQuotedOf(name, ",\n" + tail);
    ExpectOf(",\n", tail);
  }

  lemma ReadModTimeOf(t: int, tail: string)
    ensures ReadField(RenderField(ModTimeField(t)) + tail) == Some((ModTimeField(t), tail))
  {
    var s := RenderField(ModTimeField(t)) + tail;
    assert s == "FileModTime:" + (Decimal(t) + "," + ("\n" + tail));
    assert !StartsWith(s, "FileName:") by {
      PrefixOfAppend("FileModTime:", Decimal(t) + "," + ("\n" + tail), 9);
      assert "FileModTime:"[..9][4] != "FileName:"[4];
    }
    ExpectOf("FileModTime:", Decimal(t) + "," + ("\n" + tail));
    ReadNumberOf(t, "\n" + tail);
    ExpectOf("\n", tail);
  }

  lemma ReadSizeOf(n: int, tail: string)
    ensures ReadField(RenderField(SizeField(n)) + tail) == Some((SizeField(n), tail))
  {
    var s := RenderField(SizeField(n)) + tail;
    assert s == "FileSize:" + (Decimal(n) + "," + ("\n" + tail));
    assert !StartsWith(s, "FileName:") && !StartsWith(s, "FileModTime:") by {
      PrefixOfAppend("FileSize:", Decimal(n) + "," + ("\n" + tail), 9);
      assert "FileSize:"[4] != "FileName:"[4];
      assert s[4] == 'S' && "FileModTime:"[4] == 'M';
    }
    ExpectOf("FileSize:", Decimal(n) + "," + ("\n" + tail));
    ReadNumberOf(n, "\n" + tail);
    ExpectOf("\n", tail);
  }

  lemma ReadDataOf(d: string, tail: string)
    requires '`' !in d
    ensures ReadField(RenderField(DataField(d)) + tail) == Some((DataField(d), tail))
  {
    var s := RenderField(DataField(d)) + tail;
    var s1 := d + ['`'] + (",\n\n" + tail);
    assert s == "Data:`" + s1 by {
      DataText(d, tail);
    }
    assert !StartsWith(s, "FileName:") && !StartsWith(s, "FileModTime:") && !StartsWith(s, "FileSize:") by {
      assert s[0] == 'D';
    }
    assert Expect(s, "Data:`") == Some(s1) by {
      ExpectOf("Data:`", s1);
    }
    assert Until(s1, '`') == Some((d, ",\n\n" + tail)) by {
      UntilOf(d, '`', ",\n\n" + tail);
    }
    ExpectOf(",\n\n", tail);
  }

  lemma DataText(d: string, tail: string)
    ensures "Data:`" + d + "`,\n" + "\n" + tail == "Data:`" + (d + ['`'] + (",\n\n" + tail))
  {
  }

  lemma ReadIsDirOf(tail: string)
    ensures ReadField(RenderField(IsDirField) + tail) == Some((IsDirField, tail))
  {
    var s := RenderField(IsDirField) + tail;
    assert s == "FileIsDir:true,\n" + tail;
    assert !StartsWith(s, "FileName:") && !StartsWith(s, "FileModTime:") && !StartsWith(s, "FileSize:") by {
      assert s[4] == 'I';
    }
    assert s[0] == 'F';
    ExpectOf("FileIsDir:true,\n", tail);
  }

  /** Each rendered field reads back as itself. */
  lemma ReadFieldOf(f: Field, tail: string)
    requires Readable(f)
    ensures ReadField(RenderField(f) + tail) == Some((f, tail))
  {
    match f
    case FileNameField(name) => ReadFileNameOf(name, tail);
    case ModTimeField(t) => ReadModTimeOf(t, tail);
    case SizeField(n) => ReadSizeOf(n, tail);
    case DataField(d) => ReadDataOf(d, tail);
    case IsDirField => ReadIsDirOf(tail);
  }

  /** Keyed fields up to the closing brace, and the text after the brace. */
  function ReadFields(s: string): (r: Option<(seq<Field>, string)>)
    ensures r.Some? ==> |r.value.1| < |s|
    decreases |s|
  {
    if StartsWith(s, "}") then Some(([], s[1..]))
    else
      match ReadField(s)
      case None => None
      case Some((f, rest)) =>
        match ReadFields(rest)
        case None => None
        case Some((fs, after)) => Some(([f] + fs, after))
  }

  lemma {:induction false} ReadFieldsOf(fs: seq<Field>, rest: string)
    requires forall f :: f in fs ==> Readable(f)
    ensures ReadFields(RenderFields(fs) + "}" + rest) == Some((fs, rest))
    decreases |fs|
  {
    var s := RenderFields(fs) + "}" + rest;
    if fs == [] {
      assert s == "}" + rest;
      assert s[1..] == rest;
    } else {
      var tail := RenderFields(fs[1..]) + "}" + rest;
      assert s == RenderField(fs[0]) + tail by {
        FieldsText(RenderField(fs[0]), RenderFields(fs[1..]), rest);
      }
      assert !StartsWith(s, "}") by {
        var r := RenderField(fs[0]);
        assert r[0] == 'F' || r[0] == 'D';
        assert s[0] == r[0];
        assert s[..1][0] == s[0];
      }
      assert ReadField(s) == Some((fs[0], tail)) by {
        ReadFieldOf(fs[0], tail);
      }
      assert ReadFields(tail) == Some((fs[1..], rest)) by {
        ReadFieldsOf(fs[1..], rest);
      }
      assert [fs[0]] + fs[1..] == fs;
    }
  }

  lemma FieldsText(f: string, fs: string, rest: string)
    ensures f + fs + "}" + rest == f + (fs + "}" + rest)
  {
  }

  /** The braces and fields of a `wbin.File` literal. */
  function ReadBody(s: string): (r: Option<(seq<Field>, string)>)
    ensures r.Some? ==> |r.value.1| < |s|
  {
    match Expect(s, "{\n")
    case None => None
    case Some(inner) => ReadFields(inner)
  }

  /** The body written for an entry reads back as its fields. */
  lemma ReadBodyOf(e: Entry, rest: string)
    requires '`' !in e.data
    ensures ReadBody(Body(e) + rest) == Some((Fields(e), rest))
  {
    FieldsSelection(e);
    assert Body(e) + rest == "{\n" + (RenderFields(Fields(e)) + "}" + rest);
    ExpectOf("{\n", RenderFields(Fields(e)) + "}" + rest);
    ReadFieldsOf(Fields(e), rest);
  }

  /* ---------- the file ---------- */

  /** What a generated single-file source declares: its package, the
      runtime package it imports ("" for none), and one variable holding a
      pointer to a `<qualifier>.File` literal with these fields. */
  datatype FileDecl = FileDecl(pkg: string, importPath: string, name: string, qualifier: string, fields: seq<Field>)

  /** The package clause and the optional import block, and the text after
      the blank line that ends them. */
  function ReadHead(s: string): Option<(string, string, string)> {
    match Expect(s, "package ")
    case None => None
    case Some(s1) =>
      match Until(s1, '\n')
      case None => None
      case Some((pkg, s2)) =>
        match ReadImports(s2)
        case None => None
        case Some((imp, rest)) => Some((pkg, imp, rest))
  }

  /** The optional import block and the blank line after the head. */
  function ReadImports(s: string): Option<(string, string)> {
    if StartsWith(s, "\nimport (\n") then
      match ReadQuoted(s[10..])
      case None => None
      case Some((imp, s1)) =>
        match Expect(s1, "\n)\n\n")
        case None => None
        case Some(rest) => Some((imp, rest))
    else
      match Expect(s, "\n")
      case None => None
      case Some(rest) => Some(("", rest))
  }

  /** `var <name> = &<qualifier>.File{...}` and nothing after it. */
  function ReadDecl(s: string): Option<(string, string, seq<Field>)> {
    match Expect(s, "var ")
    case None => None
    case Some(s1) =>
      match Until(s1, ' ')
      case None => None
      case Some((name, s2)) =>
        match ReadValue(s2)
        case None => None
        case Some((qualifier, fs)) => Some((name, qualifier, fs))
  }

  /** `= &<qualifier>.File{...}` and nothing after it. */
  function ReadValue(s: string): Option<(string, seq<Field>)> {
    match Expect(s, "= &")
    case None => None
    case Some(s1) =>
      match Until(s1, '.')
      case None => None
      case Some((qualifier, s2)) =>
        match Expect(s2, "File")
        case None => None
        case Some(s3) =>
          match ReadBody(s3)
          case None => None
          case Some((fs, rest)) => if rest == [] then Some((qualifier, fs)) else None
  }

  function ReadFileSource(s: string): Option<FileDecl> {
    match ReadHead(s)
    case None => None
    case Some((pkg, imp, s1)) =>
      match ReadDecl(s1)
      case None => None
      case Some((name, qualifier, fs)) => Some(FileDecl(pkg, imp, name, qualifier, fs))
  }

  lemma ReadHeadOf(p: Packer, d: string, rest: string)
    requires '\n' !in d
    requires rest != [] && rest[0] == 'v'
    ensures ReadHead(Head(p, d) + "\n" + rest) == Some((d, p.importPath, rest))
  {
    var s2 := Imports(p) + "\n" + rest;
    assert Head(p, d) + "\n" + rest == "package " + (d + ['\n'] + s2);
    ExpectOf("package ", d + ['\n'] + s2);
    UntilOf(d, '\n', s2);
    ReadImportsOf(p, rest);
  }

  lemma ReadImportsOf(p: Packer, rest: string)
    requires rest != [] && rest[0] == 'v'
    ensures ReadImports(Imports(p) + "\n" + rest) == Some((p.importPath, rest))
  {
    if p.importPath != "" {
      ReadImportBlockOf(p, rest);
    } else {
      var s := Imports(p) + "\n" + rest;
      assert s == "\n" + rest;
      assert !StartsWith(s, "\nimport (\n") by {
        assert s[1] == rest[0] == 'v';
      }
      ExpectOf("\n", rest);
    }
  }

  lemma ReadImportBlockOf(p: Packer, rest: string)
    requires p.importPath != ""
    ensures ReadImports(Imports(p) + "\n" + rest) == Some((p.importPath, rest))
  {
    var s1 := "\n)\n\n" + rest;
    assert Imports(p) + "\n" + rest == "\nimport (\n" + (Quote(p.importPath) + s1) by {
      ImportBlockText(Quote(p.importPath), rest);
    }
    ExpectOf("\nimport (\n", Quote(p.importPath) + s1);
    ReadQuotedOf(p.importPath, s1);
    ExpectOf("\n)\n\n", rest);
  }

  lemma ImportBlockText(q: string, rest: string)
    ensures "\n" + "import (\n" + q + "\n" + ")\n" + "\n" + rest == "\nimport (\n" + (q + ("\n)\n\n" + rest))
  {
  }

  lemma ReadValueOf(qualifier: string, e: Entry)
    requires '.' !in qualifier && '`' !in e.data
    ensures ReadValue("= &" + qualifier + ".File" + Body(e)) == Some((qualifier, Fields(e)))
  {
    var s3 := Body(e);
    var s2 := "File" + s3;
    var s1 := qualifier + ['.'] + s2;
    assert "= &" + qualifier + ".File" + Body(e) == "= &" + s1;
    ExpectOf("= &", s1);
    UntilOf(qualifier, '.', s2);
    ExpectOf("File", s3);
    assert ReadBody(s3) == Some((Fields(e), [])) by {
      ReadBodyOf(e, []);
      assert s3 + [] == s3;
    }
  }

  lemma ReadDeclOf(name: string, qualifier: string, e: Entry)
    requires ' ' !in name && '.' !in qualifier && '`' !in e.data
    ensures ReadDecl(VarDecl(name, qualifier, e)) == Some((name, qualifier, Fields(e)))
  {
    var s2 := "= &" + qualifier + ".File" + Body(e);
    var s1 := name + [' '] + s2;
    assert VarDecl(name, qualifier, e) == "var " + s1;
    ExpectOf("var ", s1);
    UntilOf(name, ' ', s2);
    ReadValueOf(qualifier, e);
  }

  /** The text `PackFile` writes declares, in the package named after the
      target's directory and importing the runtime package when one is set,
      the variable `<prefix><Name>` whose `File` literal has exactly the
      entry's fields. The conditions keep the separators the reader looks for
      out of the names it reads. */
  lemma ReadFileSourceOf(p: Packer, e: Entry, writeTo: string)
    requires NameDefined(e.fileName, false)
    requires '\n' !in GetDir(writeTo)
    requires ' ' !in p.varName
    requires '.' !in Base(p.importPath)
    requires '`' !in e.data
    ensures ReadFileSource(FileSource(p, e, writeTo)) ==
              Some(FileDecl(GetDir(writeTo), p.importPath, p.varName + GetName(e.fileName, false),
                            Base(p.importPath), Fields(e)))
  {
    var name := p.varName + GetName(e.fileName, false);
    assert ' ' !in name by {
      assert ' ' !in GetName(e.fileName, false);
    }
    var decl := VarDecl(name, Base(p.importPath), e);
    assert decl != [] && decl[0] == 'v';
    ReadHeadOf(p, GetDir(writeTo), decl);
    ReadDeclOf(name, Base(p.importPath), e);
  }

  /* ---------- the file system ---------- */

  /** What a generated file-system source declares: its package, the import,
      and one `<qualifier>.Fs` variable whose map literal has these elements,
      each a quoted key and the fields of its `File` literal, in order. */
  datatype FsDecl = FsDecl(pkg: string, importPath: string, name: string, qualifier: string, elements: seq<(string, seq<Field>)>)

  /** The elements the generator means to write for the keys `ks`: each
      entry's virtual path and its fields. */
  function Literals(fs: map<string, Entry>, ks: seq<string>): (r: seq<(string, seq<Field>)>)
    requires forall k :: k in ks ==> k in fs
    ensures |r| == |ks|
    ensures forall i :: 0 <= i < |ks| ==> r[i] == (fs[ks[i]].path, Fields(fs[ks[i]]))
  {
    if ks == [] then [] else [(fs[ks[0]].path, Fields(fs[ks[0]]))] + Literals(fs, ks[1..])
  }

  /** One element `"<key>": {...},` of the map literal, and the text after it. */
  function ReadElement(s: string): (r: Option<((string, seq<Field>), string)>)
    ensures r.Some? ==> |r.value.1| < |s|
  {
    match ReadQuoted(s)
    case None => None
    case Some((key, s1)) =>
      match Expect(s1, ": ")
      case None => None
      case Some(s2) =>
        match ReadBody(s2)
        case None => None
        case Some((fields, s3)) =>
          match Expect(s3, ",\n")
          case None => None
          case Some(rest) => Some(((key, fields), rest))
  }

  /** Elements up to the closing brace of the map, and the text after it. */
  function ReadElements(s: string): (r: Option<(seq<(string, seq<Field>)>, string)>)
    decreases |s|
  {
    if StartsWith(s, "}") then Some(([], s[1..]))
    else
      match ReadElement(s)
      case None => None
      case Some((el, rest)) =>
        match ReadElements(rest)
        case None => None
        case Some((els, after)) => Some(([el] + els, after))
  }

  /** `var <name> = <qualifier>.Fs{...}` and nothing after it. */
  function ReadFsDecl(s: string): Option<(string, string, seq<(string, seq<Field>)>)> {
    match Expect(s, "var ")
    case None => None
    case Some(s1) =>
      match Until(s1, ' ')
      case None => None
      case Some((name, s2)) =>
        match ReadFsValue(s2)
        case None => None
        case Some((qualifier, els)) => Some((name, qualifier, els))
  }

  /** `= <qualifier>.Fs{...}` and nothing after it. */
  function ReadFsValue(s: string): Option<(string, seq<(string, seq<Field>)>)> {
    match Expect(s, "= ")
    case None => None
    case Some(s1) =>
      match Until(s1, '.')
      case None => None
      case Some((qualifier, s2)) =>
        match Expect(s2, "Fs{\n")
        case None => None
        case Some(s3) =>
          match ReadElements(s3)
          case None => None
          case Some((els, rest)) => if rest == [] then Some((qualifier, els)) else None
  }

  function ReadFsSource(s: string): Option<FsDecl> {
    match ReadHead(s)
    case None => None
    case Some((pkg, imp, s1)) =>
      match ReadFsDecl(s1)
      case None => None
      case Some((name, qualifier, els)) => Some(FsDecl(pkg, imp, name, qualifier, els))
  }

  lemma ReadElementOf(e: Entry, tail: string)
    requires '`' !in e.data
    ensures ReadElement(Element(e) + tail) == Some(((e.path, Fields(e)), tail))
  {
    var s3 := ",\n" + tail;
    var s2 := Body(e) + s3;
    var s1 := ": " + s2;
    assert Element(e) + tail == Quote(e.path) + s1 by {
      ElementText(Quote(e.path), Body(e), tail);
    }
    ReadQuotedOf(e.path, s1);
    ExpectOf(": ", s2);
    ReadBodyOf(e, s3);
    ExpectOf(",\n", tail);
  }

  lemma ElementText(q: string, b: string, tail: string)
    ensures q + ": " + b + ",\n" + tail == q + (": " + (b + (",\n" + tail)))
  {
  }

  /** The entries at the keys `ks`, in that order. */
  function EntriesAt(fs: map<string, Entry>, ks: seq<string>): (r: seq<Entry>)
    requires forall k :: k in ks ==> k in fs
    ensures |r| == |ks|
    ensures forall i :: 0 <= i < |ks| ==> r[i] == fs[ks[i]]
  {
    if ks == [] then [] else EntriesAt(fs, ks[..|ks| - 1]) + [fs[ks[|ks| - 1]]]
  }

  /** The texts `f` gives for `xs`, joined left to right. */
  function Concat<T>(xs: seq<T>, f: T -> string): string {
    if xs == [] then "" else Concat(xs[..|xs| - 1], f) + f(xs[|xs| - 1])
  }

  lemma {:induction false} ConcatCons<T>(xs: seq<T>, f: T -> string)
    requires xs != []
    ensures Concat(xs, f) == f(xs[0]) + Concat(xs[1..], f)
    decreases |xs|
  {
    var n := |xs|;
    if n == 1 {
      assert xs[..0] == [] && xs[1..] == [];
    } else {
      var init := xs[..n - 1];
      ConcatCons(init, f);
      assert init[0] == xs[0];
      assert init[1..] == xs[1..][..n - 2];
      assert xs[1..][n - 2] == xs[n - 1];
      Assoc(f(xs[0]), Concat(init[1..], f), f(xs[n - 1]));
    }
  }

  lemma {:induction false} ElementsAsConcat(fs: map<string, Entry>, ks: seq<string>)
    requires forall k :: k in ks ==> k in fs
    ensures Elements(fs, ks) == Concat(EntriesAt(fs, ks), Element)
    decreases |ks|
  {
    if ks != [] {
      var init := ks[..|ks| - 1];
      ElementsAsConcat(fs, init);
      var es := EntriesAt(fs, ks);
      assert es[..|es| - 1] == EntriesAt(fs, init);
    }
  }

  /** The elements written front to back: the first key's, then the rest. */
  lemma ElementsCons(fs: map<string, Entry>, ks: seq<string>)
    requires forall k :: k in ks ==> k in fs
    requires ks != []
    ensures Elements(fs, ks) == Element(fs[ks[0]]) + Elements(fs, ks[1..])
  {
    var es := EntriesAt(fs, ks);
    var tail := EntriesAt(fs, ks[1..]);
    assert es[1..] == tail;
    assert Elements(fs, ks) == Element(es[0]) + Concat(es[1..], Element) by {
      ElementsAsConcat(fs, ks);
      ConcatCons(es, Element);
    }
    assert Elements(fs, ks[1..]) == Concat(tail, Element) by {
      ElementsAsConcat(fs, ks[1..]);
    }
  }

  lemma Assoc(a: string, b: string, c: string)
    ensures (a + b) + c == a + (b + c)
  {
  }

  lemma {:induction false} ReadElementsOf(fs: map<string, Entry>, ks: seq<string>, rest: string)
    requires forall k :: k in ks ==> k in fs
    requires forall k :: k in ks ==> '`' !in fs[k].data
    ensures ReadElements(Elements(fs, ks) + "}" + rest) == Some((Literals(fs, ks), rest))
    decreases |ks|
  {
    var s := Elements(fs, ks) + "}" + rest;
    if ks == [] {
      assert s == "}" + rest;
      assert s[1..] == rest;
    } else {
      var tail := Elements(fs, ks[1..]) + "}" + rest;
      assert s == Element(fs[ks[0]]) + tail by {
        ElementsCons(fs, ks);
        FieldsText(Element(fs[ks[0]]), Elements(fs, ks[1..]), rest);
      }
      assert !StartsWith(s, "}") by {
        assert s[0] == Element(fs[ks[0]])[0] == '"';
        assert s[..1][0] == s[0];
      }
      assert ReadElement(s) == Some(((fs[ks[0]].path, Fields(fs[ks[0]])), tail)) by {
        ReadElementOf(fs[ks[0]], tail);
      }
      assert ReadElements(tail) == Some((Literals(fs, ks[1..]), rest)) by {
        ReadElementsOf(fs, ks[1..], rest);
      }
    }
  }

  lemma ReadFsValueOf(qualifier: string, fs: map<string, Entry>, ks: seq<string>)
    requires forall k :: k in ks ==> k in fs
    requires forall k :: k in ks ==> '`' !in fs[k].data
    requires '.' !in qualifier
    ensures ReadFsValue("= " + qualifier + ".Fs{\n" + (Elements(fs, ks) + "}")) == Some((qualifier, Literals(fs, ks)))
  {
    var s3 := Elements(fs, ks) + "}";
    var s2 := "Fs{\n" + s3;
    var s1 := qualifier + ['.'] + s2;
    assert "= " + qualifier + ".Fs{\n" + s3 == "= " + s1;
    ExpectOf("= ", s1);
    UntilOf(qualifier, '.', s2);
    ExpectOf("Fs{\n", s3);
    assert ReadElements(s3) == Some((Literals(fs, ks), [])) by {
      ReadElementsOf(fs, ks, []);
      assert s3 + [] == s3;
    }
  }

  lemma ReadFsDeclOf(name: string, qualifier: string, fs: map<string, Entry>, ks: seq<string>)
    requires forall k :: k in ks ==> k in fs
    requires forall k :: k in ks ==> '`' !in fs[k].data
    requires ' ' !in name && '.' !in qualifier
    ensures ReadFsDecl(FsDeclHead(name, qualifier) + (Elements(fs, ks) + "}")) == Some((name, qualifier, Literals(fs, ks)))
  {
    var s2 := "= " + qualifier + ".Fs{\n" + (Elements(fs, ks) + "}");
    var s1 := name + [' '] + s2;
    assert FsDeclHead(name, qualifier) + (Elements(fs, ks) + "}") == "var " + s1;
    ExpectOf("var ", s1);
    UntilOf(name, ' ', s2);
    ReadFsValueOf(qualifier, fs, ks);
  }

  lemma FsSourceText(h: string, d: string, es: string)
    ensures h + "\n" + d + es + "}" == h + "\n" + (d + (es + "}"))
  {
  }

  /** The source starts with the head and goes on with the declaration. */
  lemma FsSourceSplit(p: Packer, fs: map<string, Entry>, ks: seq<string>)
    requires p.varName == "" ==> NameDefined(p.out, true)
    requires forall k :: k in ks ==> k in fs
    ensures FsSource(p, fs, ks) ==
              Head(p, GetDir(p.out)) + "\n" + (FsDeclHead(FsVar(p), Base(p.importPath)) + (Elements(fs, ks) + "}"))
    ensures FsDeclHead(FsVar(p), Base(p.importPath)) + (Elements(fs, ks) + "}") != []
    ensures (FsDeclHead(FsVar(p), Base(p.importPath)) + (Elements(fs, ks) + "}"))[0] == 'v'
  {
    FsSourceText(Head(p, GetDir(p.out)), FsDeclHead(FsVar(p), Base(p.importPath)), Elements(fs, ks));
  }

  lemma FsVarHasNoSpace(p: Packer)
    requires p.varName == "" ==> NameDefined(p.out, true)
    requires ' ' !in p.varName
    ensures ' ' !in FsVar(p)
  {
    if p.varName == "" {
      assert ' ' !in GetName(p.out, true);
    }
  }

  /** The text `PackFs` writes declares, in the package named after the
      output's directory and importing the runtime package when one is set,
      the variable `FsVar(p)` as an `Fs` map literal whose elements are, in
      the order of `ks`, each entry's virtual path and its fields. */
  lemma ReadFsSourceOf(p: Packer, fs: map<string, Entry>, ks: seq<string>)
    requires p.varName == "" ==> NameDefined(p.out, true)
    requires forall k :: k in ks ==> k in fs
    requires forall k :: k in ks ==> '`' !in fs[k].data
    requires '\n' !in GetDir(p.out)
    requires ' ' !in p.varName
    requires '.' !in Base(p.importPath)
    ensures ReadFsSource(FsSource(p, fs, ks)) ==
              Some(FsDecl(GetDir(p.out), p.importPath, FsVar(p), Base(p.importPath), Literals(fs, ks)))
  {
    FsVarHasNoSpace(p);
    FsSourceSplit(p, fs, ks);
    ReadHeadOf(p, GetDir(p.out), FsDeclHead(FsVar(p), Base(p.importPath)) + (Elements(fs, ks) + "}"));
    ReadFsDeclOf(FsVar(p), Base(p.importPath), fs, ks);
  }
}
