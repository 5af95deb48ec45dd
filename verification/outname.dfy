/** The name of the generated file (`generateOutputFilename`). */
module OutputName {
  import opened Strings
  import opened FilePath

  /** Put in front of the input's base name. */
  const Prefix: string := "autogen_topb_"

  /** The generated file's name: the input's directory, then the prefix,
      the input's file name without its extension, and `.go` whatever the
      input's extension was. */
  function GenerateOutputFilename(filename: string): (r: string)
    ensures Split(r).0 == Split(filename).0
    ensures HasSuffix(r, ".go")
  {
    var (dir, file) := Split(filename);
    var ext := Ext(file);
    var base := TrimSuffix(file, ext);
    var name := Prefix + base + ".go";
    OutputElementShape(file);
    var r := Join(dir, name);
    assert r == dir + name;
    assert r[|r| - 3..] == name[|name| - 3..];
    r
  }

  /** Any final element ending in `.go` has `.go` as its extension. */
  lemma ExtOfGo(name: string)
    requires HasSuffix(name, ".go")
    ensures Ext(name) == ".go"
  {
    var n := |name|;
    assert name[n - 3..] == ".go";
    assert name[n - 2..] == "go";
    ExtAtLastDot(name, n - 3);
  }

  /** The final element of the output for a given input final element. */
  function OutputElement(file: string): string
  {
    Prefix + TrimSuffix(file, Ext(file)) + ".go"
  }

  lemma OutputElementShape(file: string)
    requires Separator !in file
    ensures var name := OutputElement(file);
      && Separator !in name
      && HasSuffix(name, ".go")
      && name[|Prefix|..|name| - 3] + Ext(file) == file
  {
    var ext := Ext(file);
    var base := TrimSuffix(file, ext);
    var name := Prefix + base + ".go";
    assert base + ext == file;
    assert Separator !in base by {
      assert forall j :: 0 <= j < |base| ==> base[j] == file[j];
    }
    assert name[|Prefix|..|name| - 3] == base;
    assert name[|name| - 3..] == ".go";
  }

  lemma OutputIsJoined(filename: string)
    ensures GenerateOutputFilename(filename) == Split(filename).0 + OutputElement(Split(filename).1)
  {
  }

  /** The output lies in the input's directory; its final element is the
      prefix, a stem and `.go`; the stem followed by the input's extension is
      the input's final element; and its extension is `.go`. */
  lemma OutputNameShape(filename: string)
    ensures var (dir, file) := Split(filename);
      var out := GenerateOutputFilename(filename);
      var (odir, ofile) := Split(out);
      && odir == dir
      && ofile[..|Prefix|] == Prefix
      && ofile[|Prefix|..|ofile| - 3] + Ext(file) == file
      && HasSuffix(out, ".go")
      && Ext(out) == ".go"
  {
    var (dir, file) := Split(filename);
    var name := OutputElement(file);
    OutputIsJoined(filename);
    OutputElementShape(file);
    SplitJoined(dir, name);
    ExtOfGo(dir + name);
  }

  lemma ExampleElement()
    ensures OutputElement("Foo.src") == "autogen_topb_Foo.go"
  {
    var f := "Foo.src";
    assert f[3..] == ".src" && f[4..] == "src";
    ExtAtLastDot(f, 3);
    assert TrimSuffix(f, ".src") == "Foo";
  }

  /** The directory is kept and the extension is replaced by `.go`. */
  lemma ExampleSourceFile()
    ensures GenerateOutputFilename("dir/Foo.src") == "dir/autogen_topb_Foo.go"
  {
    var dir, file, out := "dir/", "Foo.src", "autogen_topb_Foo.go";
    assert dir + file == "dir/Foo.src";
    assert dir + out == "dir/autogen_topb_Foo.go";
    SplitJoined(dir, file);
    ExampleElement();
    OutputIsJoined(dir + file);
  }
}
