/** Provenance of an entity: the source file name(s) and a description.
    Merging two tags records both sources, joining differing texts with
    " + " and keeping identical texts once. */
module Tags {

  datatype Tag = Tag(fileName: string, description: string)

  /** The tag of an entity built from no source. */
  const Empty: Tag := Tag("", "")

  const Separator: string := " + "

  /** Joins two provenance texts; equal texts are recorded once. */
  function Join(a: string, b: string): (r: string)
    ensures a == b ==> r == a
    ensures a != b ==> |r| == |a| + |Separator| + |b|
    ensures a != b ==> r[..|a|] == a && r[|a|..|a| + |Separator|] == Separator && r[|a| + |Separator|..] == b
  {
    if a == b then a else a + Separator + b
  }

  /** Merges the tag of an appended entity into the receiver's tag. A
      receiver without a file name takes the other tag unchanged. */
  function Merge(self: Tag, other: Tag): (r: Tag)
    ensures self.fileName == "" ==> r == other
    ensures self.fileName != "" ==>
      r.fileName == Join(self.fileName, other.fileName) && r.description == Join(self.description, other.description)
  {
    if self.fileName == "" then other
    else Tag(Join(self.fileName, other.fileName), Join(self.description, other.description))
  }

  /** Merging a tag with itself changes nothing. */
  lemma MergeIdempotent(t: Tag)
    ensures Merge(t, t) == t
  {
  }

  /** The appended text can be read back from the joined text: with the
      receiver's text fixed, different appended texts give different joins. */
  lemma JoinInjective(a: string, b1: string, b2: string)
    requires Join(a, b1) == Join(a, b2)
    ensures b1 == b2
  {
    var j1 := Join(a, b1);
    var j2 := Join(a, b2);
    if a != b1 && a != b2 {
      assert b1 == j1[|a| + |Separator|..];
      assert b2 == j2[|a| + |Separator|..];
    }
  }

  /** Merging into a named tag records the appended tag recoverably: two
      different appended tags never give the same merge. */
  lemma MergeInjective(self: Tag, o1: Tag, o2: Tag)
    requires Merge(self, o1) == Merge(self, o2)
    ensures o1 == o2
  {
    if self.fileName != "" {
      JoinInjective(self.fileName, o1.fileName, o2.fileName);
      JoinInjective(self.description, o1.description, o2.description);
    }
  }

  /** Appending a tag that records no source to a named tag joins the empty
      texts too, leaving a trailing separator on both fields. */
  lemma MergeEmptyOther(t: Tag)
    requires t.fileName != "" && t.description != ""
    ensures Merge(t, Empty) == Tag(t.fileName + Separator, t.description + Separator)
  {
  }
}
