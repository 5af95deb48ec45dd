/** The method emitter (`processDecl`): picks the struct of a `type`
    declaration that asks for generation and renders its `ToPb` method. */
module Emitter {
  import opened Options
  import opened Ast
  import opened Strings
  import opened Annotation

  /** The doc comment that governs a type spec: its own when present, the
      enclosing declaration group's otherwise. */
  function EffectiveDoc(specDoc: Option<CommentGroup>, groupDoc: Option<CommentGroup>): Option<CommentGroup>
  {
    if specDoc.Some? then specDoc else groupDoc
  }

  /** A spec the generator emits a method for: a struct type spec whose
      effective doc comment carries the marker. */
  predicate Eligible(s: Spec, groupDoc: Option<CommentGroup>)
  {
    s.TypeSpec? && s.ty.Struct? && HasTopbAnnotation(EffectiveDoc(s.doc, groupDoc))
  }

  /** Eligibility in terms of the tree alone: a struct, and a marker in the
      spec's own comments, or in the group's comments when the spec has none. */
  lemma EligibleIff(s: Spec, groupDoc: Option<CommentGroup>)
    ensures Eligible(s, groupDoc) <==>
      && s.TypeSpec? && s.ty.Struct?
      && ((s.doc.Some? && Mentions(s.doc.value))
          || (s.doc.None? && groupDoc.Some? && Mentions(groupDoc.value)))
  {
  }

  /** `i` is the position of the first eligible spec of the group. */
  ghost predicate IsFirstEligible(specs: seq<Spec>, groupDoc: Option<CommentGroup>, i: nat)
  {
    && i < |specs|
    && Eligible(specs[i], groupDoc)
    && forall j :: 0 <= j < i ==> !Eligible(specs[j], groupDoc)
  }

  lemma FirstEligibleUnique(specs: seq<Spec>, groupDoc: Option<CommentGroup>, i: nat, j: nat)
    requires IsFirstEligible(specs, groupDoc, i) && IsFirstEligible(specs, groupDoc, j)
    ensures i == j
  {
  }

  /** The loop over `genDecl.Specs` from position `k` on: the first eligible
      spec, skipping the others. */
  function FindEligible(specs: seq<Spec>, groupDoc: Option<CommentGroup>, k: nat): (r: Option<nat>)
    requires k <= |specs|
    ensures r.Some? ==> k <= r.value && IsFirstEligible(specs[k..], groupDoc, r.value - k)
    ensures r.None? ==> forall j :: k <= j < |specs| ==> !Eligible(specs[j], groupDoc)
    decreases |specs| - k
  {
    if k == |specs| then None
    else if Eligible(specs[k], groupDoc) then Some(k)
    else
      FindEligible(specs, groupDoc, k + 1)
  }

  /** The names a field contributes initializers for: its own names, or for
      an embedded field the placeholder `f<len(names)>`, which is always
      `f0` since the placeholder is only built when there are no names. */
  function FieldNames(f: Field): (r: seq<string>)
    ensures |f.names| > 0 ==> r == f.names
    ensures |f.names| == 0 ==> r == ["f0"]
  {
    if |f.names| == 0 then
      assert "f" + Decimal(0) == "f0";
      ["f" + Decimal(|f.names|)]
    else f.names
  }

  /** All initialized names of a field list, in declaration order. */
  function ExpandedNames(fields: seq<Field>): seq<string>
  {
    if |fields| == 0 then [] else FieldNames(fields[0]) + ExpandedNames(fields[1..])
  }

  /** Expansion works field by field: the names of a concatenated field list
      are the concatenated names. */
  lemma {:induction false} ExpandedNamesAppend(a: seq<Field>, b: seq<Field>)
    ensures ExpandedNames(a + b) == ExpandedNames(a) + ExpandedNames(b)
  {
    if |a| == 0 {
      assert a + b == b;
    } else {
      assert (a + b)[1..] == a[1..] + b;
      ExpandedNamesAppend(a[1..], b);
    }
  }

  /** One initializer per name, and one per embedded field. */
  function InitCount(fields: seq<Field>): nat
  {
    if |fields| == 0 then 0
    else (if |fields[0].names| == 0 then 1 else |fields[0].names|) + InitCount(fields[1..])
  }

  lemma {:induction false} ExpandedNamesCount(fields: seq<Field>)
    ensures |ExpandedNames(fields)| == InitCount(fields)
  {
    if |fields| > 0 {
      ExpandedNamesCount(fields[1..]);
    }
  }

  // The lines of an emitted method, without their newlines.

  function PackageLine(pkgName: string): string { "package " + pkgName }

  function ImportLine(pbPkg: string): string { "import \"" + pbPkg + "\"" }

  function HeaderLine(typeName: string): string
  {
    "func (u *" + typeName + ") ToPb() *pb." + typeName + " {"
  }

  function ReturnLine(typeName: string): string { "    return &pb." + typeName + "{" }

  function InitLine(name: string): string { "        " + name + ": u." + name + "," }

  function InitLines(names: seq<string>): (r: seq<string>)
    ensures |r| == |names|
  {
    seq(|names|, i requires 0 <= i < |names| => InitLine(names[i]))
  }

  /** The layout of a generated file, line by line: package clause, blank,
      import, blank, method header, return line, one initializer per name,
      and the two closing braces. */
  function MethodLines(pkgName: string, pbPkg: string, typeName: string, names: seq<string>): seq<string>
  {
    HeadLines(pkgName, pbPkg, typeName)
    + InitLines(names)
    + ["    }", "}"]
  }

  // The text as the source's buffer builds it, one write at a time.

  function PackageWrite(pkgName: string): string { "package " + pkgName + "\n\n" }

  function ImportWrite(pbPkg: string): string { "import \"" + pbPkg + "\"\n\n" }

  function HeaderWrite(typeName: string): string
  {
    "func (u *" + typeName + ") ToPb() *pb." + typeName + " {\n"
  }

  function ReturnWrite(typeName: string): string { "    return &pb" + "." + typeName + "{\n" }

  function InitWrite(name: string): string { "        " + name + ": u." + name + ",\n" }

  /** The inner loop: one initializer per name. */
  function NameInits(names: seq<string>): string
  {
    if |names| == 0 then "" else InitWrite(names[0]) + NameInits(names[1..])
  }

  /** The outer loop over `structDecl.Fields.List`. */
  function FieldInits(fields: seq<Field>): string
  {
    if |fields| == 0 then "" else NameInits(FieldNames(fields[0])) + FieldInits(fields[1..])
  }

  /** The complete text of the buffer for one annotated struct. */
  function Render(pkgName: string, pbPkg: string, typeName: string, fields: seq<Field>): string
  {
    HeadText(pkgName, pbPkg, typeName)
    + FieldInits(fields)
    + "    }\n"
    + "}\n"
  }

  lemma {:induction false} NameInitsLayout(names: seq<string>)
    ensures NameInits(names) == Unlines(InitLines(names))
  {
    if |names| > 0 {
      NameInitsLayout(names[1..]);
      assert InitLines(names)[1..] == InitLines(names[1..]);
    }
  }

  lemma {:induction false} FieldInitsLayout(fields: seq<Field>)
    ensures FieldInits(fields) == Unlines(InitLines(ExpandedNames(fields)))
  {
    if |fields| > 0 {
      var first := FieldNames(fields[0]);
      var rest := ExpandedNames(fields[1..]);
      FieldInitsLayout(fields[1..]);
      NameInitsLayout(first);
      assert InitLines(first + rest) == InitLines(first) + InitLines(rest);
      UnlinesAppend(InitLines(first), InitLines(rest));
    }
  }

  function HeadLines(pkgName: string, pbPkg: string, typeName: string): seq<string>
  {
    [PackageLine(pkgName), "", ImportLine(pbPkg), "", HeaderLine(typeName), ReturnLine(typeName)]
  }

  /** The text the source writes before the first initializer. */
  function HeadText(pkgName: string, pbPkg: string, typeName: string): string
  {
    PackageWrite(pkgName) + ImportWrite(pbPkg) + HeaderWrite(typeName) + ReturnWrite(typeName)
  }

  lemma UnlinesSingle(l: string)
    ensures Unlines([l]) == l + "\n"
  {
    assert [l][1..] == [];
  }

  lemma UnlinesBlank(l: string)
    ensures Unlines([l, ""]) == l + "\n\n"
  {
    assert [l, ""][1..] == [""];
    UnlinesSingle("");
    assert "" + "\n" == "\n";
    assert l + "\n" + "\n" == l + "\n\n";
  }

  lemma HeadLayout(pkgName: string, pbPkg: string, typeName: string)
    ensures HeadText(pkgName, pbPkg, typeName) == Unlines(HeadLines(pkgName, pbPkg, typeName))
  {
    var l0 := [PackageLine(pkgName), ""];
    var l1 := [ImportLine(pbPkg), ""];
    var l2 := [HeaderLine(typeName)];
    var l3 := [ReturnLine(typeName)];
    UnlinesBlank(PackageLine(pkgName));
    assert PackageWrite(pkgName) == Unlines(l0);
    UnlinesBlank(ImportLine(pbPkg));
    assert ImportWrite(pbPkg) == Unlines(l1);
    UnlinesSingle(HeaderLine(typeName));
    assert HeaderWrite(typeName) == Unlines(l2);
    UnlinesSingle(ReturnLine(typeName));
    assert "    return &pb" + "." == "    return &pb.";
    assert ReturnWrite(typeName) == Unlines(l3);
    assert HeadLines(pkgName, pbPkg, typeName) == l0 + l1 + l2 + l3;
    UnlinesAppend(l0 + l1 + l2, l3);
    UnlinesAppend(l0 + l1, l2);
    UnlinesAppend(l0, l1);
  }

  /** The emitted text is exactly the method's lines in order, each ended by
      a newline, with one initializer line per expanded field name. */
  lemma RenderLayout(pkgName: string, pbPkg: string, typeName: string, fields: seq<Field>)
    ensures Render(pkgName, pbPkg, typeName, fields)
         == Unlines(MethodLines(pkgName, pbPkg, typeName, ExpandedNames(fields)))
  {
    var head := HeadLines(pkgName, pbPkg, typeName);
    var inits := InitLines(ExpandedNames(fields));
    var tail := ["    }", "}"];
    assert MethodLines(pkgName, pbPkg, typeName, ExpandedNames(fields)) == head + inits + tail;
    FieldInitsLayout(fields);
    HeadLayout(pkgName, pbPkg, typeName);
    UnlinesAppend(head + inits, tail);
    UnlinesAppend(head, inits);
    assert Unlines(tail[1..]) == "}\n";
    assert Unlines(tail) == "    }\n}\n";
  }

  /** `processDecl`: the method text for the first eligible spec of a `type`
      declaration, if there is one. */
  function ProcessDecl(decl: Decl, pbPkg: string, pkgName: string): Option<string>
  {
    if decl.OtherDecl? || decl.tok != Type then None
    else
      match FindEligible(decl.specs, decl.doc, 0)
      case None => None
      case Some(i) =>
        var s := decl.specs[i];
        Some(Render(pkgName, pbPkg, s.name, s.ty.fields))
  }

  /** What `processDecl` yields: nothing for a declaration other than a
      `type` declaration, nothing when no spec of the group is eligible, and
      otherwise the method of the group's first eligible spec. */
  lemma ProcessDeclSpec(decl: Decl, pbPkg: string, pkgName: string)
    ensures !(decl.GenDecl? && decl.tok == Type) ==> ProcessDecl(decl, pbPkg, pkgName) == None
    ensures decl.GenDecl? && decl.tok == Type ==>
      (ProcessDecl(decl, pbPkg, pkgName).Some? <==>
        exists i :: 0 <= i < |decl.specs| && Eligible(decl.specs[i], decl.doc))
    ensures decl.GenDecl? && decl.tok == Type ==>
      forall i: nat :: IsFirstEligible(decl.specs, decl.doc, i) ==>
        ProcessDecl(decl, pbPkg, pkgName) == Some(Render(pkgName, pbPkg, decl.specs[i].name, decl.specs[i].ty.fields))
  {
    if decl.GenDecl? && decl.tok == Type {
      assert decl.specs[0..] == decl.specs;
      match FindEligible(decl.specs, decl.doc, 0)
      case None =>
      case Some(k) =>
        forall i: nat | IsFirstEligible(decl.specs, decl.doc, i)
          ensures i == k
        {
          FirstEligibleUnique(decl.specs, decl.doc, i, k);
        }
    }
  }

  /** Searching a group with one more spec in front finds the same spec,
      one position later. */
  lemma {:induction false} FindEligibleShift(s: Spec, rest: seq<Spec>, doc: Option<CommentGroup>, k: nat)
    requires k <= |rest|
    ensures FindEligible(rest, doc, k).None? ==> FindEligible([s] + rest, doc, k + 1).None?
    ensures FindEligible(rest, doc, k).Some? ==>
      FindEligible([s] + rest, doc, k + 1) == Some(FindEligible(rest, doc, k).value + 1)
    decreases |rest| - k
  {
    if k < |rest| {
      assert ([s] + rest)[k + 1] == rest[k];
      FindEligibleShift(s, rest, doc, k + 1);
    }
  }

  /** Appending specs after an eligible one does not change the search. */
  lemma {:induction false} FindEligiblePrefix(specs: seq<Spec>, rest: seq<Spec>, doc: Option<CommentGroup>, k: nat)
    requires k <= |specs|
    requires exists i :: k <= i < |specs| && Eligible(specs[i], doc)
    ensures FindEligible(specs + rest, doc, k) == FindEligible(specs, doc, k)
    decreases |specs| - k
  {
    assert (specs + rest)[k] == specs[k];
    if !Eligible(specs[k], doc) {
      FindEligiblePrefix(specs, rest, doc, k + 1);
    }
  }

  /** A spec that is not eligible (not a type spec, not a struct, or not
      annotated) is skipped: the result is as if it were absent. */
  lemma SkipIneligible(tok: Token, doc: Option<CommentGroup>, s: Spec, rest: seq<Spec>, pbPkg: string, pkgName: string)
    requires !Eligible(s, doc)
    ensures ProcessDecl(GenDecl(tok, doc, [s] + rest), pbPkg, pkgName)
         == ProcessDecl(GenDecl(tok, doc, rest), pbPkg, pkgName)
  {
    FindEligibleShift(s, rest, doc, 0);
    match FindEligible(rest, doc, 0)
    case None =>
    case Some(i) => assert ([s] + rest)[i + 1] == rest[i];
  }

  /** An eligible spec wins: its method is emitted and the specs after it
      are never looked at. */
  lemma EmitFirstEligible(doc: Option<CommentGroup>, s: Spec, rest: seq<Spec>, pbPkg: string, pkgName: string)
    requires Eligible(s, doc)
    ensures ProcessDecl(GenDecl(Type, doc, [s] + rest), pbPkg, pkgName)
         == Some(Render(pkgName, pbPkg, s.name, s.ty.fields))
  {
    assert ([s] + rest)[0] == s;
  }

  /** At most one method per declaration group: once the group holds an
      eligible spec, appending further specs changes nothing. */
  lemma LaterSpecsIgnored(doc: Option<CommentGroup>, specs: seq<Spec>, rest: seq<Spec>, pbPkg: string, pkgName: string)
    requires exists i :: 0 <= i < |specs| && Eligible(specs[i], doc)
    ensures ProcessDecl(GenDecl(Type, doc, specs + rest), pbPkg, pkgName)
         == ProcessDecl(GenDecl(Type, doc, specs), pbPkg, pkgName)
  {
    FindEligiblePrefix(specs, rest, doc, 0);
    match FindEligible(specs, doc, 0)
    case None =>
    case Some(i) => assert (specs + rest)[i] == specs[i];
  }
}
