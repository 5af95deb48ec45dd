/** The driver (`processFile`, `writeToFile`) over an abstract file store:
    every declaration that yields a method is written to the file's single
    output name, each write replacing what was there. */
module Driver {
  import opened Options
  import opened Ast
  import opened Emitter
  import opened OutputName

  /** The file system: the content of each existing file by path. */
  type Store = map<string, string>

  /** `writeToFile`: create (truncate) the output file of `filename` and
      write `content`. When the file cannot be created (its path is in
      `denied`), the store is left as it was. */
  function WriteToFile(fs: Store, denied: set<string>, filename: string, content: string): (fs': Store)
    ensures var out := GenerateOutputFilename(filename);
      && (out in denied ==> fs' == fs)
      && (out !in denied ==> out in fs' && fs'[out] == content)
      && fs'.Keys == fs.Keys + (if out in denied then {} else {out})
      && forall p :: p in fs && p != out ==> p in fs' && fs'[p] == fs[p]
  {
    var out := GenerateOutputFilename(filename);
    if out in denied then fs else fs[out := content]
  }

  /** The method text each declaration yields, in declaration order. */
  function Emitted(decls: seq<Decl>, pbPkg: string, pkgName: string): (outs: seq<Option<string>>)
    ensures |outs| == |decls|
  {
    seq(|decls|, i requires 0 <= i < |decls| => ProcessDecl(decls[i], pbPkg, pkgName))
  }

  /** The loop of `processFile`: each yielded text is written, in order. */
  function WriteEach(outs: seq<Option<string>>, filename: string, fs: Store, denied: set<string>): Store
  {
    if |outs| == 0 then fs
    else
      var fs1 := match outs[0]
        case None => fs
        case Some(content) => WriteToFile(fs, denied, filename, content);
      WriteEach(outs[1..], filename, fs1, denied)
  }

  /** `processFile` for one parsed file. */
  function ProcessFile(filename: string, file: File, pbPkg: string, fs: Store, denied: set<string>): Store
  {
    WriteEach(Emitted(file.decls, pbPkg, file.pkgName), filename, fs, denied)
  }

  /** Reference definition: the last text yielded, looking from the end. */
  function LastOutput(outs: seq<Option<string>>): (r: Option<string>)
    ensures r.None? <==> forall i :: 0 <= i < |outs| ==> outs[i].None?
    ensures r.Some? ==> exists i :: (0 <= i < |outs| && outs[i] == r &&
      forall j :: i < j < |outs| ==> outs[j].None?)
  {
    if |outs| == 0 then None
    else if outs[|outs| - 1].Some? then outs[|outs| - 1]
    else
      var pre := outs[..|outs| - 1];
      assert forall i :: 0 <= i < |pre| ==> pre[i] == outs[i];
      LastOutput(pre)
  }

  /** The last text of a list with one more entry in front. */
  lemma {:induction false} LastOutputCons(o: Option<string>, rest: seq<Option<string>>)
    ensures LastOutput([o] + rest) == (if LastOutput(rest).Some? then LastOutput(rest) else o)
    decreases |rest|
  {
    var all := [o] + rest;
    if |rest| > 0 {
      assert all[|all| - 1] == rest[|rest| - 1];
      assert all[..|all| - 1] == [o] + rest[..|rest| - 1];
      LastOutputCons(o, rest[..|rest| - 1]);
    } else {
      assert all[..|all| - 1] == [];
    }
  }

  /** A later write to the same file replaces an earlier one entirely. */
  lemma WriteTwice(fs: Store, denied: set<string>, filename: string, c1: string, c2: string)
    ensures WriteToFile(WriteToFile(fs, denied, filename, c1), denied, filename, c2)
         == WriteToFile(fs, denied, filename, c2)
  {
  }

  /** Writing the yielded texts in order leaves the store as it was when
      there is none (a stale output stays), and otherwise amounts to writing
      the LAST one: earlier texts are overwritten. */
  lemma {:induction false} WriteEachLastWins(outs: seq<Option<string>>, filename: string, fs: Store, denied: set<string>)
    ensures WriteEach(outs, filename, fs, denied)
         == match LastOutput(outs)
            case None => fs
            case Some(content) => WriteToFile(fs, denied, filename, content)
  {
    if |outs| > 0 {
      var o := outs[0];
      var rest := outs[1..];
      assert outs == [o] + rest;
      var fs1 := match o
        case None => fs
        case Some(content) => WriteToFile(fs, denied, filename, content);
      WriteEachLastWins(rest, filename, fs1, denied);
      LastOutputCons(o, rest);
      match o
      case None =>
      case Some(c1) =>
        match LastOutput(rest)
        case None =>
        case Some(c2) => WriteTwice(fs, denied, filename, c1, c2);
    }
  }

  /** `processFile` writes the method of the last declaration that yields
      one, and leaves the store untouched when none does. */
  lemma ProcessFileLastWins(filename: string, file: File, pbPkg: string, fs: Store, denied: set<string>)
    ensures var outs := Emitted(file.decls, pbPkg, file.pkgName);
      ProcessFile(filename, file, pbPkg, fs, denied)
        == match LastOutput(outs)
           case None => fs
           case Some(content) => WriteToFile(fs, denied, filename, content)
  {
    WriteEachLastWins(Emitted(file.decls, pbPkg, file.pkgName), filename, fs, denied);
  }

  /** Running the generator a second time on the same input changes
      nothing. */
  lemma ProcessFileIdempotent(filename: string, file: File, pbPkg: string, fs: Store, denied: set<string>)
    ensures ProcessFile(filename, file, pbPkg, ProcessFile(filename, file, pbPkg, fs, denied), denied)
         == ProcessFile(filename, file, pbPkg, fs, denied)
  {
    var once := ProcessFile(filename, file, pbPkg, fs, denied);
    ProcessFileLastWins(filename, file, pbPkg, fs, denied);
    ProcessFileLastWins(filename, file, pbPkg, once, denied);
    match LastOutput(Emitted(file.decls, pbPkg, file.pkgName))
    case None =>
    case Some(c) => WriteTwice(fs, denied, filename, c, c);
  }

  /** Only the output file can change; every other file of the store
      keeps its content. */
  lemma {:induction false} WriteEachFrame(outs: seq<Option<string>>, filename: string, fs: Store, denied: set<string>)
    ensures var fs' := WriteEach(outs, filename, fs, denied);
      var out := GenerateOutputFilename(filename);
      && fs'.Keys <= fs.Keys + {out}
      && forall p :: p in fs && p != out ==> p in fs' && fs'[p] == fs[p]
  {
    if |outs| > 0 {
      var fs1 := match outs[0]
        case None => fs
        case Some(content) => WriteToFile(fs, denied, filename, content);
      WriteEachFrame(outs[1..], filename, fs1, denied);
    }
  }

  /** `processFile` touches no file of the store but its output file. */
  lemma ProcessFileFrame(filename: string, file: File, pbPkg: string, fs: Store, denied: set<string>)
    ensures var fs' := ProcessFile(filename, file, pbPkg, fs, denied);
      var out := GenerateOutputFilename(filename);
      && fs'.Keys <= fs.Keys + {out}
      && forall p :: p in fs && p != out ==> p in fs' && fs'[p] == fs[p]
  {
    WriteEachFrame(Emitted(file.decls, pbPkg, file.pkgName), filename, fs, denied);
  }

  /** Two annotated type declarations in one file: the output holds the
      method of the second only. */
  lemma SecondGroupOverwritesFirst(filename: string, pkgName: string, pbPkg: string,
                                   d1: Decl, d2: Decl, fs: Store, denied: set<string>)
    requires ProcessDecl(d1, pbPkg, pkgName).Some? && ProcessDecl(d2, pbPkg, pkgName).Some?
    requires GenerateOutputFilename(filename) !in denied
    ensures var fs' := ProcessFile(filename, File(pkgName, [d1, d2]), pbPkg, fs, denied);
      GenerateOutputFilename(filename) in fs' && fs'[GenerateOutputFilename(filename)] == ProcessDecl(d2, pbPkg, pkgName).value
  {
    ProcessFileLastWins(filename, File(pkgName, [d1, d2]), pbPkg, fs, denied);
    var outs := Emitted([d1, d2], pbPkg, pkgName);
    assert outs[1] == ProcessDecl(d2, pbPkg, pkgName);
    assert LastOutput(outs) == outs[1];
  }
}
