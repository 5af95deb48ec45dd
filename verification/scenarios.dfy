/** A worked example of the emitter on a small declaration tree. */
module Scenarios {
  import opened Options
  import opened Ast
  import opened Strings
  import opened Annotation
  import opened Emitter
  import opened Decode

  const OrderFields: seq<Field> := [Field(["ID"]), Field(["Total"])]

  /** `// gen:topb` above `type Order struct { ID int; Total float64 }`. The
      parser attaches a comment above an unparenthesized `type` declaration
      to the declaration, not to its single spec. */
  const OrderDecl: Decl :=
    GenDecl(Type, Some(["// gen:topb"]), [TypeSpec("Order", None, Struct(OrderFields))])

  lemma OrderAnnotated()
    ensures HasTopbAnnotation(Some(["// gen:topb"]))
  {
    assert OccursAt(Marker, "// gen:topb", 3);
  }

  /** The annotated `Order` struct yields a method on `*Order` that
      initializes `pb.Order`'s `ID` and `Total` from the receiver, in that
      order. */
  lemma OrderMethod()
    ensures ProcessDecl(OrderDecl, "example.com/pb", "shop").Some?
    ensures Parse(ProcessDecl(OrderDecl, "example.com/pb", "shop").value)
         == Some(Generated("shop", "example.com/pb", "Order", ["ID", "Total"]))
  {
    OrderAnnotated();
    assert IsFirstEligible(OrderDecl.specs, OrderDecl.doc, 0);
    assert ExpandedNames(OrderFields[1..]) == ["Total"];
    assert ExpandedNames(OrderFields) == ["ID", "Total"];
    ProcessDeclDecodes(OrderDecl, "example.com/pb", "shop", 0);
  }
}
