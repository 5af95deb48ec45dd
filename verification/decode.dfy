/** A reader for the text the emitter produces. It recovers the package,
    the import path, the type name and the initialized field names, and so
    states what the emitted text carries: decoding an emitted method gives
    back exactly what went into it. */
module Decode {
  import opened Options
  import opened Ast
  import opened Strings
  import opened Emitter

  /** What one generated file says: its package, the wire package it
      imports, the converted type and the initialized fields in order. */
  datatype Generated = Generated(pkgName: string, pbPkg: string, typeName: string, names: seq<string>)

  /** The parts can be told apart in the text: none spans a line, the type
      name holds no `)` and no field name holds a `:`. Go identifiers always
      qualify; the import path comes from the command line unchecked. */
  predicate Readable(g: Generated)
  {
    && '\n' !in g.pkgName
    && '\n' !in g.pbPkg
    && '\n' !in g.typeName && ')' !in g.typeName
    && forall i :: 0 <= i < |g.names| ==> '\n' !in g.names[i] && ':' !in g.names[i]
  }

  /** The text of a generated file, as the emitter lays it out. */
  function Text(g: Generated): string
  {
    Unlines(MethodLines(g.pkgName, g.pbPkg, g.typeName, g.names))
  }

  function ParsePackage(l: string): Option<string>
  {
    if "package " <= l then Some(l[8..]) else None
  }

  function ParseImport(l: string): Option<string>
  {
    if |l| >= 9 && "import \"" <= l && l[|l| - 1] == '"' then Some(l[8..|l| - 1]) else None
  }

  function ParseHeader(l: string): Option<string>
  {
    if "func (u *" <= l then
      var t := TakeUntil(l[9..], ')');
      if l == HeaderLine(t) then Some(t) else None
    else None
  }

  function ParseInit(l: string): Option<string>
  {
    if "        " <= l then
      var n := TakeUntil(l[8..], ':');
      if l == InitLine(n) then Some(n) else None
    else None
  }

  /** Every line an initializer; their names in order. */
  function ParseInits(ls: seq<string>): (r: Option<seq<string>>)
    ensures r.Some? ==> ls == InitLines(r.value)
  {
    if |ls| == 0 then Some([])
    else
      match (ParseInit(ls[0]), ParseInits(ls[1..]))
      case (Some(n), Some(ns)) =>
        assert ls == [ls[0]] + ls[1..];
        Some([n] + ns)
      case _ => None
  }

  function ParseLines(ls: seq<string>): Option<Generated>
  {
    if |ls| < 8 || ls[1] != "" || ls[3] != "" || ls[|ls| - 2] != "    }" || ls[|ls| - 1] != "}" then None
    else
      match (ParsePackage(ls[0]), ParseImport(ls[2]), ParseHeader(ls[4]), ParseInits(ls[6..|ls| - 2]))
      case (Some(p), Some(x), Some(t), Some(ns)) =>
        if ls[5] == ReturnLine(t) then Some(Generated(p, x, t, ns)) else None
      case _ => None
  }

  /** Reads a generated file: newline-terminated text laid out line by line
      as the emitter writes it. */
  function Parse(text: string): Option<Generated>
  {
    if |text| == 0 || text[|text| - 1] != '\n' then None else ParseLines(SplitLines(text))
  }

  lemma TakeUntilStop(a: string, c: char, b: string)
    requires c !in a
    ensures TakeUntil(a + [c] + b, c) == a
  {
    var s := a + [c] + b;
    var r := TakeUntil(s, c);
    assert s[|a|] == c;
    assert s[..|a|] == a;
  }

  lemma ParseHeaderLine(t: string)
    requires ')' !in t
    ensures ParseHeader(HeaderLine(t)) == Some(t)
  {
    var l := HeaderLine(t);
    assert "func (u *" <= l;
    assert l[9..] == t + [')'] + (" ToPb() *pb." + t + " {");
    TakeUntilStop(t, ')', " ToPb() *pb." + t + " {");
  }

  lemma ParseInitLine(n: string)
    requires ':' !in n
    ensures ParseInit(InitLine(n)) == Some(n)
  {
    var l := InitLine(n);
    assert "        " <= l;
    assert l[8..] == n + [':'] + (" u." + n + ",");
    TakeUntilStop(n, ':', " u." + n + ",");
  }

  lemma {:induction false} ParseInitLines(names: seq<string>)
    requires forall i :: 0 <= i < |names| ==> ':' !in names[i]
    ensures ParseInits(InitLines(names)) == Some(names)
  {
    if |names| > 0 {
      var ls := InitLines(names);
      assert ls[1..] == InitLines(names[1..]);
      ParseInitLine(names[0]);
      ParseInitLines(names[1..]);
      assert names == [names[0]] + names[1..];
    }
  }

  lemma MethodLinesSingle(g: Generated)
    requires Readable(g)
    ensures var ls := MethodLines(g.pkgName, g.pbPkg, g.typeName, g.names);
      forall i :: 0 <= i < |ls| ==> '\n' !in ls[i]
  {
    var ls := MethodLines(g.pkgName, g.pbPkg, g.typeName, g.names);
    forall i | 0 <= i < |ls|
      ensures '\n' !in ls[i]
    {
      if 6 <= i < |ls| - 2 {
        assert ls[i] == InitLine(g.names[i - 6]);
      }
    }
  }

  lemma TextEndsInNewline(g: Generated)
    ensures |Text(g)| > 0 && Text(g)[|Text(g)| - 1] == '\n'
  {
    var ls := MethodLines(g.pkgName, g.pbPkg, g.typeName, g.names);
    UnlinesAppend(ls[..|ls| - 1], [ls[|ls| - 1]]);
    assert ls == ls[..|ls| - 1] + [ls[|ls| - 1]];
    assert Unlines([ls[|ls| - 1]]) == "}\n";
  }

  lemma ParseMethodLines(g: Generated)
    requires Readable(g)
    ensures ParseLines(MethodLines(g.pkgName, g.pbPkg, g.typeName, g.names)) == Some(g)
  {
    var ls := MethodLines(g.pkgName, g.pbPkg, g.typeName, g.names);
    assert ParsePackage(ls[0]) == Some(g.pkgName) by {
      assert "package " <= ls[0];
      assert ls[0][8..] == g.pkgName;
    }
    assert ParseImport(ls[2]) == Some(g.pbPkg) by {
      assert "import \"" <= ls[2];
      assert ls[2][8..|ls[2]| - 1] == g.pbPkg;
    }
    ParseHeaderLine(g.typeName);
    assert ls[6..|ls| - 2] == InitLines(g.names);
    ParseInitLines(g.names);
  }

  /** Decoding an emitted text gives back exactly the package, import path,
      type name and field names it was rendered from. */
  lemma ParseText(g: Generated)
    requires Readable(g)
    ensures Parse(Text(g)) == Some(g)
  {
    MethodLinesSingle(g);
    SplitUnlines(MethodLines(g.pkgName, g.pbPkg, g.typeName, g.names));
    TextEndsInNewline(g);
    ParseMethodLines(g);
  }

  lemma ParsedLines(ls: seq<string>, g: Generated)
    requires ParseLines(ls) == Some(g)
    ensures ls == MethodLines(g.pkgName, g.pbPkg, g.typeName, g.names)
  {
    assert ls[0] == PackageLine(g.pkgName);
    assert ls[2] == ImportLine(g.pbPkg);
    assert ls[4] == HeaderLine(g.typeName);
    assert ls[6..|ls| - 2] == InitLines(g.names);
    assert ls == ls[..6] + ls[6..|ls| - 2] + ls[|ls| - 2..];
  }

  lemma ReadableLines(g: Generated)
    requires var ls := MethodLines(g.pkgName, g.pbPkg, g.typeName, g.names);
      forall i :: 0 <= i < |ls| ==> '\n' !in ls[i]
    requires ParseHeader(HeaderLine(g.typeName)) == Some(g.typeName)
    requires ParseInits(InitLines(g.names)) == Some(g.names)
    ensures Readable(g)
  {
    var ls := MethodLines(g.pkgName, g.pbPkg, g.typeName, g.names);
    assert '\n' !in ls[0] && '\n' !in ls[2] && '\n' !in ls[4];
    var l := HeaderLine(g.typeName);
    assert TakeUntil(l[9..], ')') == g.typeName;
    forall i | 0 <= i < |g.names|
      ensures '\n' !in g.names[i] && ':' !in g.names[i]
    {
      assert ls[6 + i] == InitLine(g.names[i]);
      ParseInitsAt(InitLines(g.names), g.names, i);
    }
  }

  lemma {:induction false} ParseInitsAt(ls: seq<string>, names: seq<string>, i: nat)
    requires ParseInits(ls) == Some(names) && i < |names|
    ensures ParseInit(ls[i]) == Some(names[i])
  {
    if i > 0 {
      ParseInitsAt(ls[1..], names[1..], i - 1);
    }
  }

  /** Only emitter layouts decode: whatever decodes is the text of what it
      decodes to, and its parts are readable. */
  lemma TextOfParse(text: string, g: Generated)
    requires Parse(text) == Some(g)
    ensures Text(g) == text && Readable(g)
  {
    var ls := SplitLines(text);
    UnlinesSplit(text);
    ParsedLines(ls, g);
    assert ParseInits(ls[6..|ls| - 2]) == Some(g.names);
    ReadableLines(g);
  }

  /** Field fidelity of `processDecl`: the text emitted for a `type`
      declaration decodes to the package, the import path, the name of the
      group's first eligible struct and that struct's field names, one per
      name and `f0` per embedded field, in declaration order. */
  lemma ProcessDeclDecodes(decl: Decl, pbPkg: string, pkgName: string, i: nat)
    requires decl.GenDecl? && decl.tok == Type
    requires IsFirstEligible(decl.specs, decl.doc, i)
    requires Readable(Generated(pkgName, pbPkg, decl.specs[i].name, ExpandedNames(decl.specs[i].ty.fields)))
    ensures ProcessDecl(decl, pbPkg, pkgName).Some?
    ensures Parse(ProcessDecl(decl, pbPkg, pkgName).value)
         == Some(Generated(pkgName, pbPkg, decl.specs[i].name, ExpandedNames(decl.specs[i].ty.fields)))
  {
    ProcessDeclSpec(decl, pbPkg, pkgName);
    var s := decl.specs[i];
    RenderLayout(pkgName, pbPkg, s.name, s.ty.fields);
    ParseText(Generated(pkgName, pbPkg, s.name, ExpandedNames(s.ty.fields)));
  }
}
