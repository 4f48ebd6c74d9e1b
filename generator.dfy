/** The packer's code generator: identifiers, package names, the Go source
    text it writes for a whole file system or a single file, and the
    decision `WriteFile` takes before writing it. */
module Generator {
  import opened Common
  import opened Paths
  import opened Packer

  /* ---------- identifiers: `getName` ---------- */

  predicate IsLetter(c: char) {
    ('a' <= c <= 'z') || ('A' <= c <= 'Z')
  }

  predicate IsUpper(c: char) {
    'A' <= c <= 'Z'
  }

  /** `strings.ToUpper` on one ASCII character. */
  function Upper(c: char): (u: char)
    ensures IsLetter(c) ==> IsUpper(u) && Lower(u) == Lower(c)
    ensures IsUpper(c) || !IsLetter(c) ==> u == c
  {
    if 'a' <= c <= 'z' then (c as int - 32) as char else c
  }

  function Lower(c: char): char {
    if 'A' <= c <= 'Z' then (c as int + 32) as char else c
  }

  /** The letters of `s`, lower-cased: what survives of a name up to case. */
  function Folded(s: string): string {
    if s == [] then []
    else if IsLetter(s[0]) then [Lower(s[0])] + Folded(s[1..])
    else Folded(s[1..])
  }

  lemma {:induction false} FoldedAppend(a: string, b: string)
    ensures Folded(a + b) == Folded(a) + Folded(b)
    decreases |a|
  {
    if a == [] {
      assert a + b == b;
    } else {
      assert (a + b)[0] == a[0] && (a + b)[1..] == a[1..] + b;
      FoldedAppend(a[1..], b);
    }
  }

  /** The name `getName` starts from: the base name of the (absolute) path,
      without its extension when `trimExt` is set. */
  function TrimmedBase(path: string, trimExt: bool): string {
    var name := Base(path);
    if trimExt then
      var ext := Ext(name);
      if ext != "" then name[..|name| - |ext|] else name
    else name
  }

  /** `s` with its leading non-letters removed. */
  function DropNonLetters(s: string): (r: string)
    ensures |r| <= |s| && HasSuffix(s, r)
    ensures r == [] || IsLetter(r[0])
    ensures Folded(r) == Folded(s)
  {
    if s == [] || IsLetter(s[0]) then s else DropNonLetters(s[1..])
  }

  /** Letters and underscores, never two underscores in a row. */
  ghost predicate SingleUnderscores(s: string) {
    && (forall i :: 0 <= i < |s| ==> IsLetter(s[i]) || s[i] == '_')
    && (forall i :: 0 <= i < |s| - 1 && s[i] == '_' ==> IsLetter(s[i + 1]))
  }

  /** `[^a-zA-Z]+` replaced by "_": every maximal run of non-letters becomes
      one underscore. */
  function CollapseNonLetters(s: string): (r: string)
    ensures SingleUnderscores(r)
    ensures Folded(r) == Folded(s)
    ensures (r == []) == (s == [])
    decreases |s|
  {
    if s == [] then []
    else if IsLetter(s[0]) then
      var t := CollapseNonLetters(s[1..]);
      [s[0]] + t
    else
      var rest := DropNonLetters(s);
      var t := CollapseNonLetters(rest);
      assert Folded("_") == [];
      FoldedAppend("_", t);
      "_" + t
  }

  /** Dropping the leading non-letters of `a + b`: those of `a`, and when `a`
      has no letter, those of `b` too. */
  lemma {:induction false} DropAppend(a: string, b: string)
    ensures DropNonLetters(a + b) == if DropNonLetters(a) == [] then DropNonLetters(b) else DropNonLetters(a) + b
    decreases |a|
  {
    if a == [] {
      assert a + b == b;
    } else {
      assert (a + b)[0] == a[0] && (a + b)[1..] == a[1..] + b;
      if !IsLetter(a[0]) {
        DropAppend(a[1..], b);
      }
    }
  }

  /** A run of non-letters collapses to one underscore. */
  lemma {:induction false} CollapseRun(u: string)
    requires u != [] && forall i :: 0 <= i < |u| ==> !IsLetter(u[i])
    ensures CollapseNonLetters(u) == "_"
    decreases |u|
  {
    if |u| > 1 {
      CollapseRun(u[1..]);
    }
  }

  /** A name of letters only is left as it is. */
  lemma {:induction false} CollapseLetters(s: string)
    requires forall i :: 0 <= i < |s| ==> IsLetter(s[i])
    ensures CollapseNonLetters(s) == s
    decreases |s|
  {
    if s != [] {
      CollapseLetters(s[1..]);
    }
  }

  /** Collapsing works run by run: split where a letter is on either side,
      the two halves collapse on their own. With `CollapseRun` and
      `CollapseLetters`, this fixes each output character. */
  lemma {:induction false} CollapseSplit(a: string, b: string)
    requires a == [] || b == [] || IsLetter(a[|a| - 1]) || IsLetter(b[0])
    ensures CollapseNonLetters(a + b) == CollapseNonLetters(a) + CollapseNonLetters(b)
    decreases |a|, 2
  {
    if a == [] {
      assert a + b == b;
    } else if b == [] {
      assert a + b == a;
    } else if IsLetter(a[0]) {
      assert (a + b)[0] == a[0] && (a + b)[1..] == a[1..] + b;
      CollapseSplit(a[1..], b);
    } else {
      CollapseSplitRun(a, b);
    }
  }

  /** `CollapseSplit` when `a` starts with a run of non-letters. */
  lemma {:induction false} CollapseSplitRun(a: string, b: string)
    requires a != [] && b != [] && !IsLetter(a[0])
    requires IsLetter(a[|a| - 1]) || IsLetter(b[0])
    ensures CollapseNonLetters(a + b) == CollapseNonLetters(a) + CollapseNonLetters(b)
    decreases |a|, 1
  {
    if DropNonLetters(a) == [] {
      DropEmptyNoLetter(a, |a| - 1);
      CollapseRunThenLetter(a, b);
    } else {
      CollapseSplitRest(a, b);
    }
  }

  /** `CollapseSplitRun` when a letter of `a` ends its leading run. */
  lemma {:induction false} CollapseSplitRest(a: string, b: string)
    requires a != [] && b != [] && !IsLetter(a[0]) && DropNonLetters(a) != []
    requires IsLetter(a[|a| - 1]) || IsLetter(b[0])
    ensures CollapseNonLetters(a + b) == CollapseNonLetters(a) + CollapseNonLetters(b)
    decreases |a|, 0
  {
    var rest := DropNonLetters(a);
    assert rest[|rest| - 1] == a[|a| - 1];
    CollapseSplit(rest, b);
    CollapseRunThenRest(a, b);
  }

  /** A run of non-letters, then a letter: one underscore, then the rest. */
  lemma CollapseRunThenLetter(a: string, b: string)
    requires a != [] && !IsLetter(a[0]) && DropNonLetters(a) == []
    requires b != [] && IsLetter(b[0])
    ensures CollapseNonLetters(a + b) == CollapseNonLetters(a) + CollapseNonLetters(b)
  {
    assert CollapseNonLetters(a + b) == "_" + CollapseNonLetters(b) by {
      assert (a + b)[0] == a[0];
      CollapseUnfold(a + b);
      DropAppend(a, b);
    }
    assert CollapseNonLetters(a) == "_" by {
      CollapseUnfold(a);
    }
  }

  /** A leading run of `a` that a letter of `a` ends. */
  lemma CollapseRunThenRest(a: string, b: string)
    requires a != [] && !IsLetter(a[0]) && DropNonLetters(a) != []
    requires CollapseNonLetters(DropNonLetters(a) + b) == CollapseNonLetters(DropNonLetters(a)) + CollapseNonLetters(b)
    ensures CollapseNonLetters(a + b) == CollapseNonLetters(a) + CollapseNonLetters(b)
  {
    var rest := DropNonLetters(a);
    assert CollapseNonLetters(a + b) == "_" + CollapseNonLetters(rest + b) by {
      assert (a + b)[0] == a[0];
      CollapseUnfold(a + b);
      DropAppend(a, b);
    }
    assert CollapseNonLetters(a) == "_" + CollapseNonLetters(rest) by {
      CollapseUnfold(a);
    }
    Glue(CollapseNonLetters(a + b), CollapseNonLetters(a), CollapseNonLetters(rest), CollapseNonLetters(b));
  }

  /** Re-bracketing `"_" + (x + y)`. */
  lemma Glue(w: string, v: string, x: string, y: string)
    requires w == "_" + (x + y) && v == "_" + x
    ensures w == v + y
  {
  }

  /** A leading run of non-letters becomes one underscore. */
  lemma CollapseUnfold(s: string)
    requires s != [] && !IsLetter(s[0])
    ensures CollapseNonLetters(s) == "_" + CollapseNonLetters(DropNonLetters(s))
  {
  }

  /** When dropping leading non-letters leaves nothing, there was no letter. */
  lemma {:induction false} DropEmptyNoLetter(a: string, i: nat)
    requires i < |a| && DropNonLetters(a) == []
    ensures !IsLetter(a[i])
    decreases i
  {
    if i > 0 {
      DropEmptyNoLetter(a[1..], i - 1);
    }
  }

  /** `_[a-zA-Z]` replaced by the letter in upper case, matches taken left
      to right. */
  function CamelCase(s: string): (r: string)
    requires SingleUnderscores(s)
    ensures forall i :: 0 <= i < |r| ==> IsLetter(r[i]) || (r[i] == '_' && i == |r| - 1)
    ensures Folded(r) == Folded(s)
    ensures (r == []) == (s == [])
    decreases |s|
  {
    if s == [] then []
    else if |s| >= 2 && s[0] == '_' && IsLetter(s[1]) then
      var t := CamelCase(s[2..]);
      assert Folded(s) == [Lower(s[1])] + Folded(s[2..]) by {
        assert s[1..][1..] == s[2..];
      }
      assert Folded([Upper(s[1])] + t) == [Lower(s[1])] + Folded(t) by {
        assert ([Upper(s[1])] + t)[1..] == t;
      }
      [Upper(s[1])] + t
    else
      var t := CamelCase(s[1..]);
      assert ([s[0]] + t)[1..] == t;
      [s[0]] + t
  }

  /** `strings.ToUpper(name[:1]) + name[1:]` */
  function Capitalize(name: string): (r: string)
    requires name != []
    requires forall i :: 0 <= i < |name| ==> IsLetter(name[i]) || (name[i] == '_' && i == |name| - 1)
    ensures r != []
    ensures forall i :: 0 <= i < |r| ==> IsLetter(r[i]) || (r[i] == '_' && i == |r| - 1)
    ensures Folded(r) == Folded(name)
    ensures Folded(r) != [] ==> IsUpper(r[0])
    ensures Folded(r) == [] <==> r == "_"
    ensures r[0] == Upper(name[0]) && r[1..] == name[1..]
  {
    var r := [Upper(name[0])] + name[1..];
    assert r[1..] == name[1..];
    if IsLetter(name[0]) then
      assert Folded(r) == [Lower(r[0])] + Folded(name[1..]);
      r
    else
      assert |name| == 1 && name == "_";
      r
  }

  /** The trimmed base name is not empty, so `name[:1]` exists. */
  predicate NameDefined(path: string, trimExt: bool) {
    TrimmedBase(path, trimExt) != ""
  }

  /** `getName`: a Go identifier derived from a file name: ASCII letters
      only, except for one trailing underscore left by trailing non-letters;
      the letters of the name kept in order up to case; capitalised. */
  function GetName(path: string, trimExt: bool): (r: string)
    requires NameDefined(path, trimExt)
    ensures r != []
    ensures forall i :: 0 <= i < |r| ==> IsLetter(r[i]) || (r[i] == '_' && i == |r| - 1)
    ensures Folded(r) == Folded(TrimmedBase(path, trimExt))
    ensures Folded(r) != [] ==> IsUpper(r[0])
    ensures Folded(r) == [] <==> r == "_"
    ensures r == UpperCamel(TrimmedBase(path, trimExt), true)
  {
    var base := TrimmedBase(path, trimExt);
    var collapsed := CollapseNonLetters(base);
    CapitalizedCamel(base);
    Capitalize(CamelCase(collapsed))
  }

  /** The identifier `getName` is meant to make of a name, in one pass: each
      run of letters kept with its case, except that the first letter of the
      name and the first letter after each run of non-letters is upper-cased;
      the runs of non-letters dropped, except a trailing one, which leaves
      `_`. `cap` says whether the next letter starts a word. */
  function UpperCamel(s: string, cap: bool): string
    decreases |s|
  {
    if s == [] then []
    else if IsLetter(s[0]) then [if cap then Upper(s[0]) else s[0]] + UpperCamel(s[1..], false)
    else
      var rest := DropNonLetters(s[1..]);
      if rest == [] then "_" else UpperCamel(rest, true)
  }

  /** The two regular-expression passes together are the one-pass reading. */
  lemma {:induction false} CamelOfCollapse(s: string)
    ensures CamelCase(CollapseNonLetters(s)) == UpperCamel(s, false)
    decreases |s|
  {
    if s == [] {
    } else if IsLetter(s[0]) {
      var t := CollapseNonLetters(s[1..]);
      CamelOfCollapse(s[1..]);
      assert CollapseNonLetters(s) == [s[0]] + t;
      assert ([s[0]] + t)[1..] == t;
    } else {
      var rest := DropNonLetters(s);
      assert rest == DropNonLetters(s[1..]);
      if rest != [] {
        var t := CollapseNonLetters(rest[1..]);
        CamelOfCollapse(rest[1..]);
        assert CollapseNonLetters(rest) == [rest[0]] + t;
        var u := "_" + ([rest[0]] + t);
        assert CollapseNonLetters(s) == u;
        assert u[2..] == t && u[0] == '_' && u[1] == rest[0];
      }
    }
  }

  /** Capitalising the camel-cased name upper-cases its first letter. */
  lemma CapitalizedCamel(base: string)
    requires base != []
    ensures Capitalize(CamelCase(CollapseNonLetters(base))) == UpperCamel(base, true)
  {
    CamelOfCollapse(base);
    var c := UpperCamel(base, false);
    if IsLetter(base[0]) {
      assert c == [base[0]] + UpperCamel(base[1..], false);
    } else {
      var rest := DropNonLetters(base[1..]);
      if rest != [] {
        assert c == [Upper(rest[0])] + UpperCamel(rest[1..], false);
      }
    }
  }

  /** `foo_bar` gives `FooBar`: the letter after the underscore is capitalised. */
  lemma UpperCamelExample()
    ensures UpperCamel("foo_bar", true) == "FooBar"
  {
    assert "r"[1..] == [] && UpperCamel("r", false) == "r";
    assert "ar"[1..] == "r" && UpperCamel("ar", false) == "ar";
    assert "bar"[1..] == "ar" && UpperCamel("bar", true) == "Bar";
    assert "_bar"[1..] == "bar" && DropNonLetters("bar") == "bar";
    assert UpperCamel("_bar", false) == "Bar";
    assert "o_bar"[1..] == "_bar" && UpperCamel("o_bar", false) == "oBar";
    assert "oo_bar"[1..] == "o_bar" && UpperCamel("oo_bar", false) == "ooBar";
    assert "foo_bar"[1..] == "oo_bar";
  }

  /* ---------- package name: `getDIR` ---------- */

  /** `getDIR`: the name of the directory that holds `path`. */
  function GetDir(path: string): (r: string)
    ensures r != []
  {
    Base(Dir(path))
  }

  /** The generated file declares the package its directory is named after. */
  lemma GetDirOfJoin(parent: string, pkg: string, file: string)
    requires pkg != [] && '/' !in pkg && '/' !in file
    requires parent == "/" || (parent != [] && parent[|parent| - 1] != '/')
    ensures GetDir(Join(Join(parent, pkg), file)) == pkg
  {
    var d := Join(parent, pkg);
    var pre := d + "/";
    assert Join(d, file) == pre + file;
    UpToLastSlashAppend(pre, file);
    assert StripTrailingSlashes(pre) == d by {
      assert pre[..|pre| - 1] == d;
      assert d[|d| - 1] == pkg[|pkg| - 1];
    }
    BaseOfJoin(parent, pkg);
  }

  lemma {:induction false} UpToLastSlashAppend(pre: string, name: string)
    requires pre != [] && pre[|pre| - 1] == '/'
    requires '/' !in name
    ensures UpToLastSlash(pre + name) == pre
    decreases |name|
  {
    if name == [] {
      assert pre + name == pre;
    } else {
      var n' := name[..|name| - 1];
      assert (pre + name)[..|pre + name| - 1] == pre + n';
      UpToLastSlashAppend(pre, n');
    }
  }

  /* ---------- literals: `%q` and `%d` ---------- */

  /** `%q` for the strings the packer prints: quotes and backslashes are
      escaped, every other character is written as it is. */
  function Quote(s: string): string {
    "\"" + Escaped(s) + "\""
  }

  function Escaped(s: string): string {
    if s == [] then []
    else (if s[0] == '"' || s[0] == '\\' then ['\\', s[0]] else [s[0]]) + Escaped(s[1..])
  }

  /** Reading a Go string literal back: the inverse of `Quote`. */
  function Unquote(q: string): Option<string> {
    if |q| >= 2 && q[0] == '"' && q[|q| - 1] == '"' then Unescaped(q[1..|q| - 1]) else None
  }

  function Unescaped(s: string): Option<string> {
    if s == [] then Some([])
    else if s[0] == '\\' then
      if |s| >= 2 && (s[1] == '"' || s[1] == '\\') then
        match Unescaped(s[2..])
        case None => None
        case Some(t) => Some([s[1]] + t)
      else None
    else if s[0] == '"' then None
    else
      match Unescaped(s[1..])
      case None => None
      case Some(t) => Some([s[0]] + t)
  }

  lemma {:induction false} EscapedRoundTrip(s: string)
    ensures Unescaped(Escaped(s)) == Some(s)
  {
    if s != [] {
      EscapedRoundTrip(s[1..]);
      var e := Escaped(s);
      if s[0] == '"' || s[0] == '\\' {
        assert e[2..] == Escaped(s[1..]);
      } else {
        assert e[1..] == Escaped(s[1..]);
      }
      assert s == [s[0]] + s[1..];
    }
  }

  /** The quoted name reads back as the name. */
  lemma QuoteRoundTrip(s: string)
    ensures Unquote(Quote(s)) == Some(s)
  {
    EscapedRoundTrip(s);
    assert Quote(s)[1..|Quote(s)| - 1] == Escaped(s);
  }

  function DigitChar(d: int): char
    requires 0 <= d < 10
  {
    ('0' as int + d) as char
  }

  /** `%d` of a non-negative number. */
  function Digits(n: nat): (r: string)
    ensures r != []
    ensures forall i :: 0 <= i < |r| ==> '0' <= r[i] <= '9'
  {
    if n < 10 then [DigitChar(n)] else Digits(n / 10) + [DigitChar(n % 10)]
  }

  /** `%d`: an optional minus sign, then the digits. */
  function Decimal(n: int): string {
    if n < 0 then "-" + Digits(-n) else Digits(n)
  }

  /** The value of a string of decimal digits. */
  function DigitsValue(s: string): nat
    requires forall i :: 0 <= i < |s| ==> '0' <= s[i] <= '9'
  {
    if s == [] then 0 else DigitsValue(s[..|s| - 1]) * 10 + (s[|s| - 1] as int - '0' as int)
  }

  predicate AllDigits(s: string) {
    forall i :: 0 <= i < |s| ==> '0' <= s[i] <= '9'
  }

  function ParseDigits(s: string): Option<nat> {
    if s != [] && AllDigits(s) then Some(DigitsValue(s)) else None
  }

  /** Reading a `%d` number back. */
  function ParseDecimal(s: string): Option<int> {
    var negative := s != [] && s[0] == '-';
    var digits := ParseDigits(if negative then s[1..] else s);
    if digits.None? then None
    else if negative then Some(0 - digits.value)
    else Some(digits.value as int)
  }

  lemma {:induction false} DigitsRoundTrip(n: nat)
    ensures DigitsValue(Digits(n)) == n
  {
    if n >= 10 {
      DigitsRoundTrip(n / 10);
      var d := Digits(n);
      assert d[..|d| - 1] == Digits(n / 10);
    }
  }

  lemma ParseDigitsOfDigits(n: nat)
    ensures ParseDigits(Digits(n)) == Some(n)
  {
    DigitsRoundTrip(n);
  }

  /** The printed number reads back as the number. */
  lemma DecimalRoundTrip(n: int)
    ensures ParseDecimal(Decimal(n)) == Some(n)
  {
    if n < 0 {
      NegativeRoundTrip(-n);
    } else {
      ParseDigitsOfDigits(n);
      assert Digits(n)[0] != '-';
    }
  }

  lemma NegativeRoundTrip(m: nat)
    requires m > 0
    ensures ParseDecimal("-" + Digits(m)) == Some(-(m as int))
  {
    ParseDigitsOfDigits(m);
    var s := "-" + Digits(m);
    assert s[0] == '-' && s[1..] == Digits(m);
  }

  /* ---------- the generated text ---------- */

  /** `appendHead`: the package clause and, when there is one, the import of
      the runtime package. */
  function Head(p: Packer, distPackage: string): string {
    "package " + distPackage + "\n" + Imports(p)
  }

  /** The import block of `appendHead`, empty when no import path is set. */
  function Imports(p: Packer): string {
    if p.importPath != "" then "\n" + "import (\n" + Quote(p.importPath) + "\n" + ")\n" else ""
  }

  /** One keyed field of a file literal. */
  datatype Field =
    | FileNameField(name: string)
    | ModTimeField(modTime: int)
    | SizeField(size: int)
    | DataField(data: string)
    | IsDirField

  /** The fields `appendFileBody` writes for an entry, in order. */
  function Fields(e: Entry): (fs: seq<Field>)
    ensures |fs| >= 2 && fs[0] == FileNameField(e.fileName) && fs[1] == ModTimeField(e.fileModTime)
  {
    [FileNameField(e.fileName), ModTimeField(e.fileModTime)] +
    (if !e.fileIsDir then
       (if e.fileSize > 0 then [SizeField(e.fileSize), DataField(e.data)] else [])
     else [IsDirField])
  }

  /** Field selection: size and payload only for non-empty files, the
      directory flag only for directories. */
  lemma FieldsSelection(e: Entry)
    ensures SizeField(e.fileSize) in Fields(e) <==> HasPayload(e.fileIsDir, e.fileSize)
    ensures DataField(e.data) in Fields(e) <==> HasPayload(e.fileIsDir, e.fileSize)
    ensures IsDirField in Fields(e) <==> e.fileIsDir
    ensures forall f :: f in Fields(e) && f.SizeField? ==> f == SizeField(e.fileSize)
    ensures forall f :: f in Fields(e) && f.DataField? ==> f == DataField(e.data)
    ensures !e.fileIsDir && e.fileSize <= 0 ==> Fields(e) == [FileNameField(e.fileName), ModTimeField(e.fileModTime)]
  {
  }

  function RenderField(f: Field): string {
    match f
    case FileNameField(name) => "FileName:" + Quote(name) + ",\n"
    case ModTimeField(t) => "FileModTime:" + Decimal(t) + ",\n"
    case SizeField(n) => "FileSize:" + Decimal(n) + ",\n"
    case DataField(d) => "Data:`" + d + "`,\n" + "\n"
    case IsDirField => "FileIsDir:true,\n"
  }

  function RenderFields(fs: seq<Field>): string {
    if fs == [] then "" else RenderField(fs[0]) + RenderFields(fs[1..])
  }

  /** `appendFileBody`: the braces around the fields. */
  function Body(e: Entry): string {
    "{\n" + RenderFields(Fields(e)) + "}"
  }

  /** One element of the `Fs` map literal. */
  function Element(e: Entry): string {
    Quote(e.path) + ": " + Body(e) + ",\n"
  }

  /** The elements for the keys `ks`, in that order. */
  function Elements(fs: map<string, Entry>, ks: seq<string>): string
    requires forall k :: k in ks ==> k in fs
  {
    if ks == [] then "" else Elements(fs, ks[..|ks| - 1]) + Element(fs[ks[|ks| - 1]])
  }

  /** The variable `PackFs` declares. */
  function FsVar(p: Packer): string
    requires p.varName == "" ==> NameDefined(p.out, true)
  {
    if p.varName == "" then GetName(p.out, true) else p.varName
  }

  /** The text `PackFs` generates, elements in the order `ks`. */
  function FsSource(p: Packer, fs: map<string, Entry>, ks: seq<string>): string
    requires p.varName == "" ==> NameDefined(p.out, true)
    requires forall k :: k in ks ==> k in fs
  {
    FsPrelude(p) + Elements(fs, ks) + "}"
  }

  /** Everything `PackFs` writes before the first element. */
  function FsPrelude(p: Packer): string
    requires p.varName == "" ==> NameDefined(p.out, true)
  {
    Head(p, GetDir(p.out)) + "\n" + FsDeclHead(FsVar(p), Base(p.importPath))
  }

  /** The start of the declaration of the `Fs` variable `name`. */
  function FsDeclHead(name: string, qualifier: string): string {
    "var " + name + " = " + qualifier + ".Fs{\n"
  }

  /** The text `PackFile` generates for one entry. */
  function FileSource(p: Packer, e: Entry, writeTo: string): string
    requires NameDefined(e.fileName, false)
  {
    Head(p, GetDir(writeTo)) + "\n" + VarDecl(p.varName + GetName(e.fileName, false), Base(p.importPath), e)
  }

  /** The declaration of the variable `name`: a pointer to a
      `<qualifier>.File` literal holding the entry's fields. */
  function VarDecl(name: string, qualifier: string, e: Entry): string {
    DeclHead(name, qualifier) + Body(e)
  }

  /** The `Fprintf` line of `PackFile`, up to the literal's body. */
  function DeclHead(name: string, qualifier: string): string {
    "var " + name + " = &" + qualifier + ".File"
  }

  /** `ks` lists the keys of `fs`, each once. */
  ghost predicate KeyListing(ks: seq<string>, fs: map<string, Entry>) {
    forall k :: k in ks <==> k in fs
  }

  /** The generated text does not depend on the order the map is iterated:
      there is one sorted listing of its keys. */
  lemma EmissionDeterministic(p: Packer, fs: map<string, Entry>, a: seq<string>, b: seq<string>)
    requires p.varName == "" ==> NameDefined(p.out, true)
    requires StrictlySorted(a) && KeyListing(a, fs)
    requires StrictlySorted(b) && KeyListing(b, fs)
    ensures FsSource(p, fs, a) == FsSource(p, fs, b)
  {
    StrictlySortedUnique(a, b);
  }

  /** `WriteFile`'s view of the target: what `os.Stat` found. */
  datatype Stat = Missing | Present(isDir: bool) | StatFailed

  datatype WriteError = InvalidPath | AlreadyExists | CannotStat | IsDirectory

  /** What `WriteFile` does: nothing, refuse, or write `content` at `path`,
      first creating the parent directories when `createParents` is set. */
  datatype WriteOutcome = Skipped | Refused(error: WriteError) | Written(path: string, content: string, createParents: bool)

  /** The decision of `WriteFile`; `abs` is what `filepath.Abs` returned
      ("" on failure). */
  function WriteFile(force: bool, abs: string, data: string, stat: Stat): (o: WriteOutcome)
    ensures data == "" ==> o == Skipped
    ensures data != "" && abs == "" ==> o == Refused(InvalidPath)
    ensures data != "" && abs != "" && !force && stat.Present? ==> o == Refused(AlreadyExists)
    ensures data != "" && abs != "" && !force && stat.StatFailed? ==> o == Refused(CannotStat)
    ensures data != "" && abs != "" && force && stat == Present(true) ==> o == Refused(IsDirectory)
    ensures o.Written? <==> data != "" && abs != "" && (if force then stat != Present(true) else stat.Missing?)
    ensures o.Written? ==> o.path == abs && o.content == data && (o.createParents <==> !stat.Present?)
  {
    if data == "" then Skipped
    else if abs == "" then Refused(InvalidPath)
    else if !force && stat.Present? then Refused(AlreadyExists)
    else if !force && !stat.Missing? then Refused(CannotStat)
    else if stat.Present? && stat.isDir then Refused(IsDirectory)
    else Written(abs, data, !stat.Present?)
  }

  /** `sort.Strings` over the keys of the map. */
  method SortedKeys(fs: map<string, Entry>) returns (ks: seq<string>)
    ensures StrictlySorted(ks) && KeyListing(ks, fs)
  {
    var keys: seq<string> := [];
    var rest := fs.Keys;
    while rest != {}
      invariant rest <= fs.Keys
      invariant forall k :: k in keys <==> k in fs && k !in rest
      invariant forall i, j :: 0 <= i < j < |keys| ==> keys[i] != keys[j]
      decreases rest
    {
      var k :| k in rest;
      keys := keys + [k];
      rest := rest - {k};
    }
    ks := SortBy(keys, (x: string) => x);
    assert forall k :: k in ks <==> k in keys by {
      forall k ensures k in ks <==> k in keys {
        assert k in ks <==> k in multiset(ks);
        assert k in keys <==> k in multiset(keys);
      }
    }
    forall x ensures multiset(ks)[x] <= 1 {
      DistinctCount(keys, x);
    }
    CountedOnce(ks);
    DistinctSortedIsStrict(ks);
  }

  lemma CountedOnce(s: seq<string>)
    requires forall x :: multiset(s)[x] <= 1
    ensures forall i, j :: 0 <= i < j < |s| ==> s[i] != s[j]
  {
    forall i, j | 0 <= i < j < |s| ensures s[i] != s[j] {
      assert s == s[..j] + s[j..];
      assert multiset(s)[s[j]] == multiset(s[..j])[s[j]] + multiset(s[j..])[s[j]];
      assert s[j..][0] == s[j];
      assert s[i] == s[..j][i];
    }
  }

  lemma DistinctCount(s: seq<string>, x: string)
    requires forall i, j :: 0 <= i < j < |s| ==> s[i] != s[j]
    ensures multiset(s)[x] <= 1
  {
    if s != [] {
      assert s == [s[0]] + s[1..];
      DistinctCount(s[1..], x);
      if x == s[0] {
        assert x !in s[1..];
      }
    }
  }

  /** `PackFs`: the map's elements written in sorted key order, and the
      write decision for the output file. */
  method PackFs(p: Packer, fs: map<string, Entry>, stat: Stat) returns (keys: seq<string>, text: string, o: WriteOutcome)
    requires p.varName == "" ==> NameDefined(p.out, true)
    ensures StrictlySorted(keys) && KeyListing(keys, fs)
    ensures text == FsSource(p, fs, keys)
    ensures o == WriteFile(p.force, p.out, text, stat)
  {
    keys := SortedKeys(fs);
    var elements := EmitElements(fs, keys);
    text := FsPrelude(p) + elements + "}";
    o := WriteFile(p.force, p.out, text, stat);
  }

  /** The loop of `PackFs` over the sorted keys. */
  method EmitElements(fs: map<string, Entry>, keys: seq<string>) returns (text: string)
    requires forall k :: k in keys ==> k in fs
    ensures text == Elements(fs, keys)
  {
    text := "";
    var i := 0;
    while i < |keys|
      invariant 0 <= i <= |keys|
      invariant text == Elements(fs, keys[..i])
    {
      ElementsStep(fs, keys, i);
      text := text + Element(fs[keys[i]]);
      i := i + 1;
    }
    assert keys[..i] == keys;
  }

  lemma ElementsStep(fs: map<string, Entry>, keys: seq<string>, i: nat)
    requires forall k :: k in keys ==> k in fs
    requires i < |keys|
    ensures Elements(fs, keys[..i + 1]) == Elements(fs, keys[..i]) + Element(fs[keys[i]])
  {
    assert keys[..i + 1][..i] == keys[..i];
  }

  /** `PackFile`: one entry as its own variable, and the write decision. */
  method PackFile(p: Packer, e: Entry, writeTo: string, stat: Stat) returns (text: string, o: WriteOutcome)
    requires NameDefined(e.fileName, false)
    ensures text == FileSource(p, e, writeTo)
    ensures o == WriteFile(p.force, writeTo, text, stat)
  {
    var head := Head(p, GetDir(writeTo)) + "\n";
    var decl := DeclHead(p.varName + GetName(e.fileName, false), Base(p.importPath));
    text := head + decl;
    text := text + Body(e);
    assert text == head + (decl + Body(e));
    o := WriteFile(p.force, writeTo, text, stat);
  }
}
