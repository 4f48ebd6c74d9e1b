# wbin: packing files into Go source, and serving them back

`wbin` has two halves.

- The **packer** (`embed.Packer`) walks the input paths and skips anything an
  exclusion pattern matches. Every other node becomes a `wbin.File` entry. A
  non-empty file's bytes are gzip-compressed, Base64-encoded and cut into
  80-character lines. Directories with no file under them are pruned. The
  result is written as Go source: one `wbin.Fs` map literal, or one
  `wbin.File` variable per file.
- The **runtime** (package `wbin`) is a read-only `http.FileSystem` over that
  map. A `File` decodes its payload once, under a `sync.Once`, and caches it.
  `Open` returns a handle with its own read position and its own
  directory listing.

The model follows the two core files module by module:

| module | models |
|---|---|
| `Common` | bytes, `Option`/`Result`, Go's byte-wise string order, a sort by key (`sort.Sort`, `sort.Strings`) |
| `Paths` | `filepath.Base`, `Dir`, `Ext`, `Join`, `Rel` on clean absolute paths |
| `Codec` | `encode`: compression, Base64 (RFC 4648, section 4), 80-column framing; its inverse as `Prepare` applies it |
| `Packer` | `Default`, the walk callback, `filepath.Walk`'s visiting order, `Walk` with its pruning loop |
| `Generator` | `getName`, `getDIR`, `appendHead`, `appendFileBody`, `PackFs`, `PackFile`, `WriteFile` |
| `Runtime` | `File` (`Prepare`, `Bytes`, `Reset`, getters), `Fs` (`Open`, `ReadBytes`), `httpFile` (`Read`, `Seek`, `Close`, `Readdir`, `Stat`) |
| `Reader` | a reader for the generated Go text: it parses what `PackFile` and `PackFs` write back into the declared fields |
| `EndToEnd` | from a walked node, to the literal the generated source declares, to what the runtime serves |

The file system is a parameter in the model. What `os.Lstat` and
`ioutil.ReadFile` report about one input is a `Tree` of `Info` values. What
`os.Stat` says about an output path is a `Stat` value. Writing a file is a
`WriteOutcome` that says what would be written where.

Where the packer's results are state the source updates, the model is
imperative:
- `result` in `Walk` is a map.
- The pruning loop deletes from it.
- `File`, `Fs` and `httpFile` are classes whose methods change their fields.

Each such method is proved equal to a specification function. The
properties are then lemmas about those functions:
- `Walk` equals `WalkSpec`.
- `Prune` equals `PruneSpec`.
- `Encode` equals `Encoded`.
- `PackFs` equals `FsSource`.

What the model shows:

- **Round trip.** Decoding a payload gives back the bytes that were read
  (`Codec.UnpackEncoded`, built on `Base64RoundTrip` and `CompressRoundTrip`).
  The payload text needs no escaping inside a Go raw string literal.
- **Entries.** The walk records exactly the nodes that are not filtered and
  have no filtered ancestor. Every recorded entry has an absolute virtual
  path. It carries a payload exactly when it is a non-empty file.
  Pruning keeps every file. It removes a directory exactly when no file's
  virtual path starts with the directory's virtual path. Pruning twice
  changes nothing more.
- **Generated names.** The variable name is letters only, except possibly
  one trailing `_`. It starts upper-case and keeps the letters of the file's
  base name in order. A `%q` string literal and a `%d` number read back as
  the value printed.
- **Generated source.** It does not depend on the order the map is iterated
  in. It reads back: parsing the text `PackFile` writes gives the package
  name, the import, the variable name and exactly the fields of the entry's
  body (`Reader.ReadFileSourceOf`). Parsing the text `PackFs` writes gives
  one element per key, in key order, each the entry's virtual path and its
  fields (`Reader.ReadFsSourceOf`). What `WriteFile` does is decided exactly by `--force`, by what
  `os.Stat` finds, and by an empty buffer.
- **Runtime.** `Open` fails exactly for names not in the map. `ReadBytes`
  reads the whole prepared payload. The payload is decoded at most once
  until `Reset`. A directory listing holds exactly the entries whose keys
  match, each once, sorted by name.
- **End-to-end.** A packed non-empty file is served with its own bytes,
  name, time and directory flag (`EndToEnd.ServedContents`,
  `ServedMetadata`, `ServedStat`). The literal never sets `Path`. This
  holds for every entry a successful walk returns: it serves the name,
  time, directory flag and bytes of the node at its key in one of the input
  trees (`EndToEnd.WalkServes`). The text `PackFs` writes for that map reads back as those entries
  (`EndToEnd.PackFsReadsBack`).

Three behaviours of the code are kept as written, with a lemma each:
- **Directory listings are empty.** `Readdir` selects the keys that start
  with the directory's `FileName`. The keys of a generated map are virtual
  paths, which start with `/`. A directory's name is its base name, which
  does not start with `/` unless the packed input is the file-system root
  `/` itself. So `Readdir` lists nothing for any directory of a packed map
  except that one (`EndToEnd.ReaddirOfPackedFs`).
- **String-prefix pruning.** Pruning compares paths as strings, not by path
  element. So a file `/ab` keeps a directory `/a` (`Packer.PruneStringPrefix`).
- **Directory inputs share the key `/`.** Every directory input gets the
  virtual path `/`. With two directory inputs, the `Fs` literal `PackFs`
  writes names the key `"/"` twice (`EndToEnd.RootDirectoriesShareKey`). Go
  rejects duplicate constant keys in a map literal, so such a file does not
  compile.

## Model

| member | source | states |
|---|---|---|
| `Packer.Default` | embed/embed.go:35-39 | the runtime import path is set and the filters exclude exactly the paths ending in `.go` or `.DS_Store`; the inputs, output, `Force`, `Var` and `Verbose` are kept |
| `Packer.New` | embed/embed.go:20-22 | `Default` of an empty packer: no inputs, no output, no `Var`, neither `Force` nor `Verbose`, the runtime import and the two filters |
| `Packer.VirtualPathSpec` | embed/embed.go:123-134 | the virtual path `VirtualPath` computes starts with `/`; it is `/` for an input directory and `/` plus the base name for an input file; for a node below the input, joining it back onto the input gives the node's true path |
| `Packer.DecideSpec` | embed/embed.go:109-160 | the decision `Decide` makes: skip a filtered node (a whole subtree for a directory); fail with the node's path exactly when the node is unfiltered, a non-empty file, and unreadable; otherwise build the entry: metadata copied, payload present exactly for a non-empty file, decoding back to the bytes read, and free of backquotes |
| `Packer.Visit` | embed/embed.go:111-121 | a filtered node yields no insertions, and no insertion is for a filtered path |
| `Packer.VisitAll` | embed/embed.go:109-160 | no insertion made while walking a directory's entries is for a filtered path |
| `Packer.VisitSound` | embed/embed.go:140-158 | every entry the walk of one tree inserts has an absolute path and a payload exactly when non-empty, and the payload decodes |
| `Packer.VisitAllSound` | embed/embed.go:140-158 | the same for the walk over a directory's entries |
| `Packer.VisitExposes` | embed/embed.go:109-160 | the walk of a tree inserts exactly the exposed nodes: unfiltered, with no filtered ancestor |
| `Packer.VisitAllExposes` | embed/embed.go:109-160 | the walk over a directory's entries inserts exactly the nodes exposed below one of them |
| `Packer.VisitDescribes` | embed/embed.go:140-158 | every entry the walk of one tree inserts is built, by the callback's rules, from the node at its key: its own `Info`, virtual path and payload |
| `Packer.VisitAllDescribes` | embed/embed.go:140-158 | the same for the walk over a directory's entries |
| `Packer.DescribedIsBuilt` | embed/embed.go:140-158 | an entry the walk of a tree inserts at key `k` is built from the `Info` of the tree's node at `k` (`NodeAt`: the root, or a node reached through the directories' entries) |
| `Packer.CollectBuilt` | embed/embed.go:107-164 | after walking the first `n` inputs, every entry was built from a node of one of their trees at its key |
| `Packer.FromInputIsBuilt` | embed/embed.go:107-164 | such an entry is built, walked from one of the first `n` inputs, from the `Info` of the node at its key in that input's tree |
| `Packer.KeysOfAppend` | embed/embed.go:158 | the keys two runs of insertions write are the union of the keys each writes |
| `Packer.AllSoundAppend` | embed/embed.go:158 | two runs of sound insertions together are sound |
| `Packer.InsertAllKeys` | embed/embed.go:158 | `result[truePath] = f` for each insertion adds exactly the inserted keys to the map |
| `Packer.InsertAllValues` | embed/embed.go:158 | every value afterwards was already in the map or is one of the insertions for its key |
| `Packer.Record` | embed/embed.go:158 | the map after the insertions, one at a time, later ones of a key replacing earlier ones |
| `Packer.CollectSound` | embed/embed.go:107-164 | after walking the first `n` inputs, every key is unfiltered and every entry sound |
| `Packer.FoldFailureStays` | embed/embed.go:161-163 | once an input's walk fails, later inputs do not change the result: the first error is returned |
| `Packer.CollectExposes` | embed/embed.go:107-164 | after walking the first `n` inputs, the keys are exactly what one of them exposes |
| `Packer.WalkInputs` | embed/embed.go:107-164 | the loop over the inputs computes the fold of their walks, stopping at the first failure |
| `Packer.Prune` | embed/embed.go:166-180 | the map after the deletion loop is `PruneSpec`: the files, and the directories some file's virtual path starts with, independent of iteration order |
| `Packer.PruneKeepsFiles` | embed/embed.go:166-180 | pruning removes no file and alters no entry |
| `Packer.PruneRemovesExactly` | embed/embed.go:166-180 | a directory is removed if and only if no file's virtual path has the directory's virtual path as a prefix |
| `Packer.PruneIdempotent` | embed/embed.go:166-180 | pruning the pruned map changes nothing |
| `Packer.PruneNoFiles` | embed/embed.go:166-180 | a walk that found no file returns an empty map |
| `Packer.PruneStringPrefix` | embed/embed.go:171 | the prefix test is on strings: a file `/ab` keeps the directory `/a` |
| `Packer.Walk` | embed/embed.go:102-186 | the result is the first walk failure, or the collected map pruned |
| `Packer.WalkResult` | embed/embed.go:102-186 | on success, the collected keys are the exposed nodes, the returned keys are those that pruning keeps, and each returned entry is unchanged, unfiltered, sound, and built from a node of one of the inputs at its key |
| `Packer.WalkBuilt` | embed/embed.go:102-186 | every entry `Walk` returns is built, walked from one of the inputs, from the `Info` of the node at its key in that input's tree |
| `Paths.StripTrailingSlashes` | embed/embed.go:125 | the result is a prefix of the path and does not end in `/` |
| `Paths.LastElement` | embed/embed.go:125 | the result is a suffix of the path containing no `/`, preceded by `/` when it is not the whole path |
| `Paths.Base` | embed/embed.go:125 | `filepath.Base` is never empty and is `/` or contains no `/` |
| `Paths.UpToLastSlash` | embed/embed.go:345 | the result is a prefix of the path ending in `/` (or empty) |
| `Paths.Dir` | embed/embed.go:345 | `filepath.Dir` is never empty |
| `Paths.Ext` | embed/embed.go:329-332 | `filepath.Ext` is a suffix of the path, starts with `.` when not empty, and contains no `/` |
| `Paths.Rel` | embed/embed.go:130 | for a target inside the base, the relative path is non-empty, does not start with `/`, and joined onto the base gives the target back |
| `Paths.RelOfJoin` | embed/embed.go:130 | a name joined onto a directory lies inside it, and `Rel` gives the name back |
| `Paths.BaseOfJoin` | embed/embed.go:125 | the base of a name joined onto a directory is the name |
| `Paths.LastOfAppend` | embed/embed.go:125 | the last element of a path ending in `/` followed by a name is the name |
| `Codec.Sextet` | embed/embed.go:311 | the value of a Base64 character is in 0..63, or -1 for a character outside the alphabet, and the digit of that value is the character |
| `Codec.SextetOfDigit` | embed/embed.go:311 | the value of the digit for a 6-bit number is that number |
| `Codec.Base64Encode` | embed/embed.go:311 | the text is four characters per started group of three bytes, all from the alphabet or `=` |
| `Codec.GroupRoundTrip` | fs.go:54 | a full group of four characters is valid and decodes to its three bytes |
| `Codec.Tail1RoundTrip` | fs.go:54 | the padded group for one final byte is valid and decodes to that byte |
| `Codec.Tail2RoundTrip` | fs.go:54 | the padded group for two final bytes is valid and decodes to those bytes |
| `Codec.DecodeCons` | fs.go:54 | decoding a valid group followed by decodable text is the group's bytes followed by the rest |
| `Codec.Base64RoundTrip` | fs.go:54 | `Base64Decode` of the standard Base64 encoding of any bytes gives those bytes |
| `Codec.ShortRoundTrip` | fs.go:54 | the round trip for one or two bytes |
| `Codec.OneRoundTrip` | fs.go:54 | the round trip for one byte |
| `Codec.TwoRoundTrip` | fs.go:54 | the round trip for two bytes |
| `Codec.RoundTripStep` | fs.go:54 | the round trip for a group of three bytes in front of bytes that already round-trip |
| `Codec.ConsRoundTrip` | fs.go:54 | decoding a valid group followed by decodable text joins their bytes |
| `Codec.EncodeCons` | embed/embed.go:311 | three or more bytes encode as their first group followed by the encoding of the rest |
| `Codec.Compress` | embed/embed.go:290-304 | the compressed stream is the 10-byte gzip header plus the data |
| `Codec.Decompress` | fs.go:54 | reading fails exactly when the gzip header is short or its magic or method byte is wrong |
| `Codec.CompressRoundTrip` | fs.go:54-55 | reading a compressed stream gives back the data |
| `Codec.Lines` | embed/embed.go:313-319 | the chunks joined give the text back; each has 1 to 80 characters, every one but the last exactly 80; chunks of Base64 text are Base64 text |
| `Codec.StripNewlines` | fs.go:54 | skipping newlines never lengthens the text; which characters it keeps is stated by `Codec.StripNewlinesKeeps` |
| `Codec.StripNewlinesKeeps` | fs.go:54 | skipping newlines removes every `\n` and `\r` and keeps every other character as often as it occurs |
| `Codec.StripConcat` | fs.go:54 | skipping newlines distributes over concatenation |
| `Codec.StripNoNewlines` | fs.go:54 | text without newlines is unchanged by skipping them |
| `Codec.StripTerminated` | fs.go:54 | skipping the newlines of newline-terminated chunks gives the chunks joined |
| `Codec.Encode` | embed/embed.go:289-322 | `encode` returns the framed Base64 text of the compressed bytes |
| `Codec.Wrap` | embed/embed.go:312-319 | the copy loop writes a newline and then each 80-character chunk followed by a newline |
| `Codec.LinesStep` | embed/embed.go:316-318 | one turn of the copy loop writes the next chunk of at most 80 characters and a newline |
| `Codec.AppendLine` | embed/embed.go:316-318 | what the loop has written plus what remains stays the whole framed text |
| `Codec.TerminatedChars` | embed/embed.go:315-319 | newline-terminated chunks of Base64 text hold only alphabet characters, `=` and newlines |
| `Codec.EncodedShape` | embed/embed.go:311-321 | the payload starts with a newline, is made of the framed lines, and with its newlines skipped is the Base64 text |
| `Codec.EncodedIsRawLiteralSafe` | embed/embed.go:279 | the payload has only alphabet characters, `=` and newlines, so it contains no backquote and fits in a raw string literal |
| `Codec.UnpackEncoded` | fs.go:54-55 | `Unpack` (newlines skipped, Base64 decoded, gzip read) of the payload `encode` produces gives back the original bytes; so does `Inflate`, the decode `Prepare` runs |
| `Codec.UnpackEmpty` | fs.go:54 | `Unpack` of the empty payload of an empty file fails: the gzip header is missing |
| `Generator.Upper` | embed/embed.go:336-338 | `strings.ToUpper` on one ASCII character: a letter becomes the upper-case form of the same letter, and an upper-case letter or a non-letter is unchanged |
| `Generator.FoldedAppend` | embed/embed.go:334-338 | the case-folded letters of two strings joined are the letters of each joined |
| `Generator.DropNonLetters` | embed/embed.go:335-337 | dropping a leading run of non-letters keeps a suffix that starts with a letter and the same letters |
| `Generator.CollapseNonLetters` | embed/embed.go:334 | each run of non-letters becomes one `_`: no `_` is followed by anything but a letter, the letters are kept, and only the empty name is empty afterwards |
| `Generator.DropAppend` | embed/embed.go:334 | dropping the leading non-letters of two strings joined drops into the second only when the first has no letter |
| `Generator.CollapseLetters` | embed/embed.go:334 | a name of letters only is left unchanged, case included |
| `Generator.CollapseRun` | embed/embed.go:334 | a non-empty run of non-letters becomes exactly one `_` |
| `Generator.CollapseSplit` | embed/embed.go:334 | the replacement distributes over a split point next to a letter: one run of non-letters is never cut in two |
| `Generator.CollapseUnfold` | embed/embed.go:334 | a name that starts with non-letters becomes `_` followed by the replacement of what follows the run |
| `Generator.CamelCase` | embed/embed.go:335-337 | each `_` before a letter is removed and the letter upper-cased; what is left is letters, except possibly a trailing `_`, with the same letters in order; with `Generator.CamelOfCollapse` the exact string is fixed |
| `Generator.Capitalize` | embed/embed.go:338 | the first character is upper-cased and the rest kept character for character; the result is non-empty, letters except possibly a trailing `_`, and starts upper-case whenever it holds a letter |
| `Generator.GetName` | embed/embed.go:325-340 | the identifier is exactly `UpperCamel` of the (optionally extension-trimmed) base name: its words joined, each capitalised, keeping a trailing `_` for trailing non-letters; so it is non-empty, letters except possibly a trailing `_`, keeps the letters in order, starts upper-case when it has letters, and is `_` exactly when it has none |
| `Generator.CamelOfCollapse` | embed/embed.go:334-337 | the two regular-expression passes together equal the one-pass word splitting `UpperCamel` with the first word left as it is |
| `Generator.CapitalizedCamel` | embed/embed.go:334-338 | the three passes of `getName` on a non-empty name equal `UpperCamel` with the first word capitalised |
| `Generator.UpperCamelExample` | embed/embed.go:334-338 | the name `foo_bar` becomes `FooBar` |
| `Generator.GetDir` | embed/embed.go:343-346 | the package name is never empty |
| `Generator.GetDirOfJoin` | embed/embed.go:343-346 | for `parent/pkg/file` the package name is `pkg` |
| `Generator.UpToLastSlashAppend` | embed/embed.go:345 | everything up to the last `/` of a prefix ending in `/` followed by a name is that prefix |
| `Generator.EscapedRoundTrip` | embed/embed.go:274 | unescaping an escaped string gives it back |
| `Generator.QuoteRoundTrip` | embed/embed.go:207 | a `%q` literal reads back as the string printed |
| `Generator.Digits` | embed/embed.go:275 | `%d` of a non-negative number is a non-empty run of digits |
| `Generator.DigitsRoundTrip` | embed/embed.go:275 | the digits printed for a number have that value |
| `Generator.ParseDigitsOfDigits` | embed/embed.go:278 | the digits printed for a number parse back to it |
| `Generator.DecimalRoundTrip` | embed/embed.go:275 | a `%d` number, negative or not, reads back as the number printed |
| `Generator.NegativeRoundTrip` | embed/embed.go:275 | a minus sign followed by the digits of a positive number reads back as its negation |
| `Generator.Fields` | embed/embed.go:272-286 | the body always names `FileName` first and `FileModTime` second |
| `Generator.FieldsSelection` | embed/embed.go:276-284 | `FileSize` and `Data` are written exactly for a non-empty file, and `FileIsDir` exactly for a directory, each with the entry's value |
| `Generator.EmissionDeterministic` | embed/embed.go:189-214 | any two sorted listings of the keys give the same source text |
| `Generator.WriteFile` | embed/embed.go:232-258 | nothing is done for empty data; an empty path is invalid; without `--force` an existing path is refused and a failed `os.Stat` is reported; a directory is refused; data is written exactly in the other cases, creating parent directories only for a new path |
| `Generator.SortedKeys` | embed/embed.go:190-195 | the keys of the map, each once, in strictly increasing order |
| `Generator.PackFs` | embed/embed.go:189-214 | the keys are sorted and are exactly the map's keys, the text is `FsSource` for them, and the write is decided by `WriteFile`; the text reads back by `Reader.ReadFsSourceOf` |
| `Generator.EmitElements` | embed/embed.go:205-210 | the loop writes one `"%q: " body ",\n"` element per key, in the order of the keys |
| `Generator.ElementsStep` | embed/embed.go:205-210 | one more key appends its element |
| `Generator.PackFile` | embed/embed.go:217-229 | the text is `FileSource`: the head, the declaration line and the entry's body, built step by step as the buffer is; the write is decided by `WriteFile`; the text reads back by `Reader.ReadFileSourceOf` |
| `Reader.ReadQuotedOf` | embed/embed.go:266 | a `%q` literal followed by anything reads back as the string printed and leaves what follows |
| `Reader.ReadNumberOf` | embed/embed.go:275 | a `%d` number and a comma read back as the number and leave what follows |
| `Reader.ReadFieldOf` | embed/embed.go:274-283 | every line `appendFileBody` writes for a field (`RenderField`), the payload free of backquotes, reads back as that field |
| `Reader.ReadFieldsOf` | embed/embed.go:274-285 | the field lines followed by `}` read back as exactly those fields, in order |
| `Reader.ReadBodyOf` | embed/embed.go:272-286 | the body `appendFileBody` writes (`Body`) reads back as exactly the entry's fields and leaves what follows |
| `Reader.ReadHeadOf` | embed/embed.go:261-269 | the head `appendHead` writes (`Head`) and its blank line read back as the package name and the import path, the empty one when none is set |
| `Reader.ReadDeclOf` | embed/embed.go:222-227 | the declaration `var <name> = &<pkg>.File{...}` reads back as the name, the qualifier and the entry's fields |
| `Reader.ReadFileSourceOf` | embed/embed.go:217-229 | the whole text `PackFile` writes reads back as the package of the output path, the import, `Var` followed by the file's `getName`, the import's base name and the entry's fields |
| `Reader.ReadElementOf` | embed/embed.go:207-209 | one element of the map literal (`Element`) reads back as the entry's virtual path and its fields |
| `Reader.ReadElementsOf` | embed/embed.go:205-211 | the elements for a list of keys, followed by `}`, read back as one pair per key, in order |
| `Reader.ReadFsSourceOf` | embed/embed.go:189-214 | the whole text `PackFs` writes reads back as the package of `-o`, the import, the variable `FsVar` names, the import's base name and one element per key in key order |
| `Common.LessIrreflexive` | fs.go:154-156 | no string sorts before itself |
| `Common.LessAsymmetric` | fs.go:154-156 | two strings do not sort before each other |
| `Common.LessTransitive` | fs.go:154-156 | string order is transitive |
| `Common.LessTotal` | fs.go:154-156 | any two different strings are ordered one way or the other |
| `Common.LessAtMost` | fs.go:154-156 | a string sorting before `b` sorts before anything not below `b` |
| `Common.Insert` | fs.go:129 | inserting into a sorted sequence keeps it sorted and adds exactly one element |
| `Common.SortBy` | fs.go:129 | the result is sorted by the key and is a permutation of the input |
| `Common.DistinctSortedIsStrict` | embed/embed.go:195 | a sorted sequence without repeats is strictly increasing |
| `Common.StrictlySortedUnique` | embed/embed.go:195 | two strictly increasing sequences with the same elements are equal |
| `Runtime.File.constructor` | fs.go:36-48 | a new entry holds the literal's fields, an empty cache and an unfired guard |
| `Runtime.File.Prepare` | fs.go:50-60 | returns the decoded payload (nothing for a directory) and caches it; the payload is decoded only the first time |
| `Runtime.File.Bytes` | fs.go:62-64 | the same as `Prepare` |
| `Runtime.File.Reset` | fs.go:66-71 | empties the cache and re-arms the guard |
| `Runtime.File.Mode` | fs.go:81-83 | every entry is read-only for everyone (0444) |
| `Runtime.PrepareTwice` | fs.go:50-60 | two `Prepare` calls return the same bytes and decode at most once |
| `Runtime.ResetThenPrepare` | fs.go:66-71 | after `Reset`, `Prepare` decodes a file's payload again and returns the same bytes |
| `Runtime.Fs.constructor` | fs.go:16 | the file system is the map it is built from |
| `Runtime.Fs.Open` | fs.go:18-24 | fails with `ErrNotExist` exactly for a name not in the map and then returns no handle; otherwise the entry is prepared (guard fired, decoded only if it was not already) and a fresh handle at position 0 over its decoded bytes is returned |
| `Runtime.Fs.ReadBytes` | fs.go:26-32 | fails exactly for a name not in the map, returning nothing; otherwise the entry is prepared as by `Open` and all of its decoded bytes are returned |
| `Runtime.OpenTwice` | fs.go:18-24 | two `Open` calls of a name in the map give two different handles over the same bytes and decode at most once; for a name not in the map both fail |
| `Runtime.Take` | fs.go:132-138 | the first `count` entries, or all of them when there are fewer or `count` is not positive |
| `Runtime.TakeAgreesAsWritten` | fs.go:132-138 | for a positive `count` the listing `ReaddirAsWritten` builds is the one `Take` builds |
| `Runtime.ReaddirAllPanicsAsWritten` | fs.go:132-138 | as written (`ReaddirAsWritten`), `Readdir(-1)` makes a slice of negative length |
| `Runtime.ReaddirZeroAsWritten` | fs.go:132-138 | as written, `Readdir(0)` returns an empty slice, while `Take` with 0 returns every entry |
| `Runtime.HttpFile.constructor` | fs.go:23 | a new handle over the given bytes, at position 0, with no listing yet |
| `Runtime.HttpFile.Read` | fs.go:107-109 | reads up to the buffer's room from the position on and advances past it; at or after the end, reads nothing and reports end of file |
| `Runtime.HttpFile.Seek` | fs.go:111-113 | moves to the target `SeekTarget` gives for an offset from the start, the position or the end; an unknown `whence` or a negative target is an error and moves nothing; the listing is unchanged |
| `Runtime.HttpFile.Close` | fs.go:115-117 | always succeeds |
| `Runtime.HttpFile.Stat` | fs.go:142-144 | returns the handle's own entry |
| `Runtime.HttpFile.Readdir` | fs.go:119-140 | a file lists nothing; a directory builds its listing once, on the first call, then returns its first `count` entries |
| `Runtime.Gather` | fs.go:123-128 | the keys collected are, as a multiset, exactly the keys starting with the prefix, so each once, and the entries are the map's values at those keys |
| `Runtime.Values` | fs.go:124-126 | the entries at a list of keys, one per key, in the keys' order |
| `Runtime.PermutedKeys` | fs.go:129 | any reordering of the entries at some keys is the entries at a reordering of those keys |
| `Runtime.RemoveKey` | fs.go:129 | taking one key out of a list takes exactly its entry out of the entries at the list |
| `Runtime.GatheredPermutation` | fs.go:129 | reordering a gathered listing leaves it gathered: the entries of the matching keys, each key once |
| `Runtime.Children` | fs.go:123-130 | the listing is the entries of a multiset-exact list of the matching keys, each key once, and is sorted by name |
| `EndToEnd.LiteralOfEntry` | embed/embed.go:272-286 | `Compile` of the body declares the entry's name, time and directory flag, the size and payload only for a non-empty file, and no path |
| `EndToEnd.Instantiate` | fs.go:36-48 | the runtime entry holds the literal's fields with the guard armed |
| `EndToEnd.ServedContents` | fs.go:50-60 | a packed non-empty file is served with the bytes that were read, and an empty file or a directory with nothing |
| `EndToEnd.ServedMetadata` | embed/embed.go:140-146 | a packed entry is served with its name, time and directory flag, its size when it has a payload, and an empty `Path` |
| `EndToEnd.ServedStat` | fs.go:73-91 | the runtime entry for a packed node answers `Name`, `ModTime` and `IsDir` with the node's name, time and directory flag, `Size` with its size when it has a payload and 0 otherwise, and its contents with the bytes that were read |
| `EndToEnd.PackFileServes` | embed/embed.go:217-229 | the text `PackFile` writes for a packed node reads back as a variable named from the node's name, whose compiled literal serves the node's name, time, directory flag and bytes |
| `EndToEnd.WalkServes` | embed/embed.go:102-186 | every entry `Walk` returns, once compiled from its body, serves the name, time, directory flag and bytes of the node at its key in one of the input trees |
| `EndToEnd.RootDirectoriesShareKey` | embed/embed.go:123-128 | two directory inputs both get the virtual path `/`, so the `Fs` literal read back has the key `/` at both of their elements |
| `EndToEnd.PackFsReadsBack` | embed/embed.go:189-214 | the text `PackFs` writes for the walked map reads back as the variable `FsVar` names, with one element per sorted key, each the entry's virtual path and its fields |
| `EndToEnd.EmptyFilePanicsAsWritten` | fs.go:50-60 | as written (`PrepareAsWritten`, through `InflateAsWritten`), serving a packed empty file panics |
| `EndToEnd.EmptyFileExample` | embed/embed.go:147-156 | the empty file `/e`, packed on its own, is such a file |
| `EndToEnd.ExampleBuilt` | embed/embed.go:140-156 | the entry the packer builds for `/e` |
| `EndToEnd.ReaddirOfPackedFs` | fs.go:124-127 | when every key starts with `/` and the directory's name does not, no key matches and every listing is empty |

## Left out

- Compression: `Codec.Compress` stands in for deflate at `gzip.BestCompression`. It is the real gzip header followed by the data, with no compressed body and no CRC-32 trailer. The model needs only that compression is invertible and never fails.
- Regular expressions: each exclusion pattern is a test on a path (`Packer.filters`). The two default patterns are written out as suffix tests. No regexp engine is modelled. `regexp.MustCompile` panicking on an invalid pattern is left out.
- `filepath.Abs` and `filepath.Clean` are the identity. The model assumes absolute, clean inputs and a fixed working directory.
- `Generator.Quote`: does not model all of `%q`. It escapes only `"` and `\`. The escaping of control characters and non-printable runes is left out.
- `goFmt`, the verbose logging, `Run` and the command-line driver are left out. They do not change what is packed or served.
- `Run`'s per-file mode is left out: it builds the output name from `file.Path` and calls `PackFile` once per file. `PackFile` itself is modelled.
- `Packer.Walk`: returns only the error when a walk fails. The code also returns the partial map collected so far (embed/embed.go:161-163); `Run`, its only caller in the package, discards it (embed/embed.go:43-46).
- `Reader.ReadFileSourceOf` and `Reader.ReadFsSourceOf`: the generated text is read back only when `Var` has no space, the import's base name has no `.`, and the package name has no newline. Without an import, `filepath.Base("")` is `.`, so the text says `&..File` and the qualifier does not read back. The reader is a model of reading the literal, not a Go parser: it accepts the exact layout before `goFmt` runs.
- `filepath.Walk` errors passed to the callback are left out. A failing `os.Lstat` would give a nil `info`. The model gives every visited node an `Info`.
- The I/O of `WriteFile` is left out. `os.MkdirAll` and `ioutil.WriteFile` can fail; the model returns the decision, not a write.
- `Runtime.File.Prepare`: does not model reading a corrupt stream part-way. Undecodable text leaves an empty cache. Only the empty payload, which the packer does produce, is modelled as a panic.
- Concurrency: `sync.Once` and `sync.Mutex` become the `done` flag and sequential calls.
- `ModTime`: `time.Unix(sec, 0)` is the seconds count itself.
- Integer widths: `int64` sizes, times and `Seek` offsets are unbounded integers. Overflow past 2^63 in `Seek` is not modelled.
- `Runtime.Children`: does not fix the order of entries with equal names. `sort.Sort` is not stable, so any sorted permutation is accepted.
- `Runtime.HttpFile.Readdir`: models `count <= 0` as "all entries", the meaning `http.File` gives it. As written, the code panics for a negative count and returns an empty slice for 0 (`Runtime.ReaddirZeroAsWritten`). See Findings.
- `Runtime.File.Prepare` after `Reset`: models the re-armed guard as sequential state. `Reset` replacing a `sync.Once` that another goroutine is running is not modelled.

## Findings

| source | as written | input that shows it | evidently intended | confidence | as-written member | corrected member |
|---|---|---|---|---|---|---|
| fs.go:50-60 | an empty file is packed with no `Data` (embed/embed.go:147); `Prepare` then ignores the error of `gzip.NewReader` on the empty stream and passes the nil reader to `ioutil.ReadAll`, which panics | packing the empty file `/e`, then opening it | an empty file serves as zero bytes | not executed | `EndToEnd.EmptyFilePanicsAsWritten` | `EndToEnd.ServedContents` |
| fs.go:132-138 | `l := count`, lowered only when above the number of entries; `make` panics when `l` is negative | `Readdir(-1)`, which `http.FileServer` calls to list a directory | `count <= 0` lists all entries, as `os.File.Readdir` does | not executed | `Runtime.ReaddirAllPanicsAsWritten` | `Runtime.Take` |
| fs.go:132-138 | for `count == 0`, `l` stays 0 and the result is an empty slice | `Readdir(0)` on a directory with entries | `count <= 0` lists all entries, as `os.File.Readdir` does | not executed | `Runtime.ReaddirZeroAsWritten` | `Runtime.Take` |
