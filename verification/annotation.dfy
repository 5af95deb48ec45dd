/** The annotation matcher: does a doc comment request `ToPb` generation? */
module Annotation {
  import opened Options
  import opened Ast
  import opened Strings

  /** The marker a doc comment must contain. */
  const Marker: string := "gen:topb"

  /** Reference definition: some comment of the group mentions the marker. */
  ghost predicate Mentions(lines: CommentGroup)
  {
    exists i :: 0 <= i < |lines| && IsSubstring(Marker, lines[i])
  }

  /** Scans the comments of a group in order, stopping at the first one that
      contains the marker. */
  function AnyContainsMarker(lines: CommentGroup): (r: bool)
    ensures r <==> Mentions(lines)
  {
    if |lines| == 0 then false
    else if Contains(lines[0], Marker) then true
    else
      var r := AnyContainsMarker(lines[1..]);
      assert forall i :: 1 <= i < |lines| ==> lines[i] == lines[1..][i - 1];
      r
  }

  /** `hasTopbAnnotation`: false for an absent doc comment, otherwise true
      exactly when one of its comments contains the marker as a substring. */
  function HasTopbAnnotation(doc: Option<CommentGroup>): (r: bool)
    ensures doc.None? ==> !r
    ensures doc.Some? ==> (r <==> Mentions(doc.value))
  {
    match doc
    case None => false
    case Some(lines) => AnyContainsMarker(lines)
  }
}
