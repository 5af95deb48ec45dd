# topb: a verified model of the `ToPb` generator

`topb` is a Go code generator. It reads one Go source file. It finds struct
types whose doc comment contains the marker `gen:topb`. For such a struct `T`
it writes a method `func (u *T) ToPb() *pb.T` that copies every field by name
into the same-named field of the wire type `pb.T`. The output goes to a file
named `autogen_topb_<base>.go` next to the input.

This project models the generator's whole logic in `main.go` as pure Dafny
functions over a hand-written declaration tree, and proves what they do.

- `options.dfy` (`Options`): the option type used for nil pointers and
  `(value, ok)` returns.
- `ast.dfy` (`Ast`): the part of Go's `go/ast` tree the generator inspects.
  A declaration is a `GenDecl(tok, doc, specs)` or something else. A spec is a
  `TypeSpec(name, doc, ty)` or something else. A type is a `Struct(fields)` or
  something else. A field is its list of names. A doc comment is an optional
  list of raw comment texts.
- `strings.dfy` (`Strings`): the Go library helpers the generator calls:
  `strings.Contains` (proved equal to a reference substring predicate),
  `strings.TrimSuffix`, `%d` formatting, and line splitting/joining used to
  read emitted text back.
- `annotation.dfy` (`Annotation`): `hasTopbAnnotation`.
- `emitter.dfy` (`Emitter`): `processDecl`. It covers the choice of the
  effective doc comment, the choice of the first eligible spec of a group, the
  expansion of field names, and the exact text the buffer receives.
- `decode.dfy` (`Decode`): a reader for the emitted text. It is the emitter's
  partner. Reading an emitted method gives back the package, import path, type
  name and field names it was rendered from. Conversely, any text the reader
  accepts is exactly the rendering of what it reads.
- `filepath.dfy` (`FilePath`): `filepath.Split`, `filepath.Ext` and
  `filepath.Join` for Unix paths.
- `outname.dfy` (`OutputName`): `generateOutputFilename`.
- `driver.dfy` (`Driver`): `processFile` and `writeToFile` over an abstract
  file store `map<string, string>`.
- `scenarios.dfy` (`Scenarios`): the `Order` example worked through.

Where the generator's documented intent and its code differ, the model
follows the code:

- The output name always ends in `.go`. The input's extension is dropped, not
  kept (`dir/Foo.src` becomes `dir/autogen_topb_Foo.go`).
- Each `type` declaration group yields at most one method: the first struct in
  the group that carries the marker. Later specs of the group are never looked
  at.
- Every declaration that yields a method is written, in full (package clause,
  import and method), to the same output file. Each write truncates the file,
  so only the last such declaration's method survives. Methods of several
  types are never grouped into one file.
- An embedded field gets the placeholder name `f0` (`"f%d"` of a length that
  is always 0 at that point), not the `f1`, `f2`, … that the code comment
  announces.
- The receiver is always `u`. The wire package is always referred to as `pb`,
  whatever import path is given.
- A file without any eligible type leaves the store untouched, so an older
  output file stays.

## Model

| member | source | states |
|---|---|---|
| Strings.Contains | main.go:98 | `strings.Contains` is true exactly when the marker occurs at some position of the comment text |
| Strings.Decimal | main.go:76 | `%d` of a count is a non-empty digit string, beginning with `0` only for zero; `Strings.DecimalValue` states which number the digits denote |
| Strings.DecimalValue | main.go:76 | the digits `%d` writes denote the count: their decimal value is the count itself |
| Strings.TrimSuffix | main.go:121 | the result followed by the suffix is the input when the input ends with the suffix; otherwise the input is unchanged |
| Annotation.AnyContainsMarker | main.go:97-103 | the scan over the comments of a group is true exactly when some comment contains `gen:topb` |
| Annotation.HasTopbAnnotation | main.go:92-103 | false for an absent doc comment; otherwise true exactly when one of its comments contains `gen:topb` as a substring |
| Emitter.EffectiveDoc | main.go:58-62 | the doc comment that governs a spec: its own when present, else the group's; `Emitter.EligibleIff` states its effect on eligibility |
| Emitter.EligibleIff | main.go:47-64 | a spec is eligible exactly when it is a type spec of a struct and the marker is in its own doc comment, or in the group's doc comment when it has none |
| Emitter.FindEligible | main.go:47-87 | the loop over the specs returns the first eligible spec, or reports that none of the remaining specs is eligible |
| Emitter.FieldNames | main.go:73-77 | a named field contributes its names unchanged; a field without names contributes exactly the one placeholder `f0` |
| Emitter.ExpandedNamesAppend | main.go:72-81 | names are expanded field by field, so the names of a concatenation of field lists are the concatenated names, in order |
| Emitter.ExpandedNamesCount | main.go:72-81 | there is one initializer per field name, and one per embedded field |
| Emitter.NameInitsLayout | main.go:78-80 | the inner loop writes one line `        N: u.N,` per name, in order |
| Emitter.FieldInitsLayout | main.go:72-81 | the field loop writes one initializer line per expanded name, in declaration order |
| Emitter.HeadLayout | main.go:66-69 | the first four writes are the lines `package P`, blank, `import "X"`, blank, `func (u *T) ToPb() *pb.T {`, `    return &pb.T{` |
| Emitter.Render | main.go:66-84 | the buffer text for one annotated struct; `Emitter.RenderLayout` states its line layout and `Decode.ParseText` reads it back |
| Emitter.RenderLayout | main.go:66-84 | the emitted text is the package clause, the import, the method header, the return line, the initializers in order, then `    }` and `}`, each line ended by a newline |
| Emitter.ProcessDecl | main.go:40-89 | `processDecl`; `Emitter.ProcessDeclSpec` states when it yields a method and which one, `Decode.ProcessDeclDecodes` what the method says |
| Emitter.ProcessDeclSpec | main.go:40-89 | nothing for a declaration other than a `type` declaration; something exactly when some spec of the group is eligible; then the method of the first eligible spec |
| Emitter.FindEligibleShift | main.go:47-56 | putting one more spec in front moves the found spec one position later |
| Emitter.SkipIneligible | main.go:47-64 | a non-type spec, a non-struct type, or an unannotated struct is skipped: the result is as if the spec were absent |
| Emitter.EmitFirstEligible | main.go:64-85 | an eligible spec at the front of a `type` group yields its own method, whatever follows it |
| Emitter.LaterSpecsIgnored | main.go:64-85 | once a group holds an eligible spec, appending specs to the group changes nothing: at most one method per group |
| Decode.ParseText | main.go:66-84 | reading the emitted text of a method gives back its package, import path, type name and field names, when none spans a line, the type name has no `)` and no field name has a `:` |
| Decode.TextOfParse | main.go:66-84 | any text the reader accepts is exactly the emitted layout of what it reads, and what it reads meets those conditions |
| Decode.ProcessDeclDecodes | main.go:40-89 | the text `processDecl` emits reads back as the package, the import path, the first eligible struct's name and its expanded field names in declaration order |
| FilePath.Split | main.go:119 | `filepath.Split` cuts the path into a directory part (empty or ending in `/`) and a final element without `/`, which together are the path |
| FilePath.SplitUnique | main.go:119 | a path has only one such cut |
| FilePath.SplitJoined | main.go:119 | a directory part followed by a final element splits back into those two parts |
| FilePath.Join | main.go:122 | a directory and a name without `/` joined split back into that directory, given a trailing `/` when it lacks one, and that name |
| FilePath.ExtScan | main.go:120 | the backward scan of `filepath.Ext` returns a suffix that is empty or starts at a dot with no later dot or `/` |
| FilePath.Ext | main.go:120 | the extension is a suffix; when not empty it starts at the final element's last dot; it is empty exactly when the final element has no dot |
| FilePath.ExtAtLastDot | main.go:120 | the extension is the text from the last dot of the final element |
| OutputName.GenerateOutputFilename | main.go:118-123 | the output name keeps the input's directory part and ends in `.go`; `OutputName.OutputNameShape` states the rest of its shape |
| OutputName.OutputNameShape | main.go:118-123 | the output name lies in the input's directory, its final element is `autogen_topb_`, a stem and `.go`, the stem followed by the input's extension is the input's final element, and the output's extension is `.go` |
| OutputName.ExampleSourceFile | main.go:118-123 | `dir/Foo.src` becomes `dir/autogen_topb_Foo.go` |
| Driver.WriteToFile | main.go:106-116 | the output file of the input ends up holding exactly the content; when it cannot be created the store is unchanged; no other file changes |
| Driver.WriteTwice | main.go:106-116 | a second write to the output file replaces the first entirely, since creating the file truncates it |
| Driver.LastOutput | main.go:31-38 | reference for the loop's effect: the text of the last declaration that yields one, or nothing when no declaration does |
| Driver.LastOutputCons | main.go:31-38 | one more declaration in front matters only when no later declaration yields a text |
| Driver.WriteEach | main.go:32-37 | the loop writing every yielded text in order; `Driver.WriteEachLastWins` and `Driver.WriteEachFrame` state its effect |
| Driver.WriteEachLastWins | main.go:31-38 | writing the yielded texts in order leaves the store as it was when there is none, and otherwise equals writing only the last |
| Driver.ProcessFile | main.go:31-38 | `processFile`; `Driver.ProcessFileLastWins`, `Driver.ProcessFileFrame` and `Driver.ProcessFileIdempotent` state its effect on the store |
| Driver.ProcessFileLastWins | main.go:31-38 | `processFile` writes the method of the last declaration that yields one; it leaves a stale output in place when none does |
| Driver.WriteEachFrame | main.go:31-38 | writing the yielded texts changes or removes no file other than the output file |
| Driver.ProcessFileFrame | main.go:31-38 | `processFile` changes no file of the store but the input's output file |
| Driver.ProcessFileIdempotent | main.go:31-38 | running the generator a second time on the same input leaves the store as the first run left it |
| Driver.SecondGroupOverwritesFirst | main.go:31-38 | with two annotated type declarations, the output file holds the second one's method only |
| Scenarios.OrderMethod | main.go:40-89 | the annotated `Order` struct with fields `ID` and `Total` yields a method on `*Order` initializing `ID` then `Total` |

## Left out

- `main` (main.go:16-29): flag parsing and `parser.ParseFile` are not modelled. The declaration tree in `Ast` stands in for the parser's output. A parse error is printed and ends the run; that path is not modelled.
- Identifiers: `%s` of an `*ast.Ident` is taken to be the identifier's name.
- Comment text: a comment is its raw text, `//` or `/* */` markers included, as `comment.Text` holds it. Strings are sequences of characters rather than bytes. For well-formed UTF-8 text, substring search gives the same answer on both.
- FilePath.Split: only Unix paths are modelled. `/` is the only separator and there are no volume names, so Windows paths such as `C:\dir\x.go` are not covered.
- FilePath.Join: `filepath.Join` also cleans the joined path. It collapses repeated separators, drops `.` elements, resolves `..` elements, and removes a trailing separator. This cleaning is not modelled. The model is exact when the input's directory part is already clean, for example `dir/` or `a/b/`. A directory such as `./` or `a//` is not.
- Driver.WriteToFile: the I/O of `os.Create`, `f.Write` and `f.Close` is not modelled. A path whose creation fails is a parameter, `denied`; the error message printed for it is not modelled. A failing `f.Write`, whose error the source ignores, is not modelled either.
- Decode.ParseText: it assumes the package name, type name and field names do not span lines, the type name has no `)`, and no field name has a `:`. Go identifiers always meet these conditions. The import path comes unchecked from the command line, and it must not contain a newline.
