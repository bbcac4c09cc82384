/**
 * Sections: one page, slide or logical unit of a parsed document, and the merge operator
 * (`+` on sections) that stitches two artificially split sections back together.
 */
module Sections {
  import opened Wrappers
  import opened Strings
  import opened PageItems

  /**
   * A section. `number` is its 1-based position in the original document; `md` is its
   * optional Markdown rendering. `md`, `images` and `items` default to absent and empty.
   */
  datatype Section = Section(
    number: int,
    text: string,
    md: Option<string> := None,
    images: seq<Image> := [],
    items: seq<PageItem> := [])

  /** The section's markup, absent markup read as the empty string (`md or ""`). */
  function MdOrEmpty(s: Section): string
  {
    s.md.GetOr("")
  }

  const IdPrefix: string := "page_"

  /** The section's identifier: `page_` followed by the decimal rendering of its number. */
  function GetId(s: Section): (r: string)
    ensures |r| > |IdPrefix| && r[..|IdPrefix|] == IdPrefix
    ensures ParseId(r) == Some(s.number)
  {
    DecimalRoundTrip(s.number);
    var r := IdPrefix + IntToDecimal(s.number);
    assert r[|IdPrefix|..] == IntToDecimal(s.number);
    r
  }

  /** Reads the number back out of an identifier produced by `GetId`; `None` for anything else. */
  function ParseId(id: string): Option<int>
  {
    if |id| >= |IdPrefix| && id[..|IdPrefix|] == IdPrefix then ParseInt(id[|IdPrefix|..]) else None
  }

  /** Two sections have the same identifier exactly when they have the same number. */
  lemma GetIdInjective(a: Section, b: Section)
    ensures GetId(a) == GetId(b) <==> a.number == b.number
  {
  }

  /**
   * `a + b`: the left operand's number; text, markup, images and items of `a` followed by
   * those of `b`, with no separator; the markup is always present, an absent one counting
   * as empty.
   */
  function Merge(a: Section, b: Section): (r: Section)
    ensures r.number == a.number
    ensures |r.text| == |a.text| + |b.text|
    ensures r.text[..|a.text|] == a.text && r.text[|a.text|..] == b.text
    ensures r.md.Some? && MdOrEmpty(r) == MdOrEmpty(a) + MdOrEmpty(b)
    ensures |r.images| == |a.images| + |b.images|
    ensures r.images[..|a.images|] == a.images && r.images[|a.images|..] == b.images
    ensures |r.items| == |a.items| + |b.items|
    ensures r.items[..|a.items|] == a.items && r.items[|a.items|..] == b.items
  {
    Section(
      number := a.number,
      text := a.text + b.text,
      md := Some(MdOrEmpty(a) + MdOrEmpty(b)),
      images := a.images + b.images,
      items := a.items + b.items)
  }

  /** Section merge is associative in every field. */
  lemma MergeAssociative(a: Section, b: Section, c: Section)
    ensures Merge(Merge(a, b), c) == Merge(a, Merge(b, c))
  {
    assert (MdOrEmpty(a) + MdOrEmpty(b)) + MdOrEmpty(c) == MdOrEmpty(a) + (MdOrEmpty(b) + MdOrEmpty(c));
  }

  /**
   * Merging in an empty section on the right gives back `a` exactly when `a` already has
   * markup: an absent markup becomes present (and empty) under merge.
   */
  lemma MergeEmptyRight(a: Section, n: int)
    ensures Merge(a, Section(n, "")) == a <==> a.md.Some?
  {
    if a.md.Some? {
      assert a.text + "" == a.text;
      assert MdOrEmpty(a) + "" == a.md.value;
      assert a.images + [] == a.images;
      assert a.items + [] == a.items;
    }
  }

  /** Merging onto an empty section gives back `b` exactly when `b` has markup and the empty section's number. */
  lemma MergeEmptyLeft(n: int, b: Section)
    ensures Merge(Section(n, ""), b) == b <==> b.md.Some? && b.number == n
  {
    if b.md.Some? && b.number == n {
      assert "" + b.text == b.text;
      assert "" + MdOrEmpty(b) == b.md.value;
      assert [] + b.images == b.images;
      assert [] + b.items == b.items;
    }
  }

  /** Section merge is not commutative: the number and the order of the content follow the left operand. */
  lemma MergeNotCommutative()
    ensures Merge(Section(1, "a"), Section(2, "b")) != Merge(Section(2, "b"), Section(1, "a"))
  {
  }

  /** The documented example: texts and markups concatenate, the left number is kept. */
  lemma MergeDocumentedExample()
    ensures var m := Merge(Section(1, "Section 1 Text", Some("# Section 1"), [], []),
                           Section(1, "Section 2 Text", Some("# Section 2"), [], []));
      && m.text == "Section 1 TextSection 2 Text"
      && m.md == Some("# Section 1# Section 2")
      && m.number == 1
  {
    assert "# Section 1" + "# Section 2" == "# Section 1# Section 2";
  }
}
