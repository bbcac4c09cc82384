/**
 * Images and page items: the leaf values of the document model.
 *
 * A page item is a closed tagged union with three variants. Each variant carries its
 * Markdown rendering `md` and a fixed discriminator written under the field `type` when
 * the item is serialised; reading an item selects the variant by that discriminator.
 */
module PageItems {
  import opened Wrappers

  /** The raw bytes of an image file. */
  type Bytes = seq<bv8>

  /**
   * An image found in a section. It is an opaque value here: the model keeps its
   * contents and optional strings but not its floating-point height and width.
   */
  datatype Image = Image(
    contents: Bytes,
    ocrText: Option<string> := None,
    name: Option<string> := None,
    alt: Option<string> := None)

  /** A structured item of a section. `isPerfectTable` defaults to false, as in `TablePageItem`. */
  datatype PageItem =
    | Text(md: string, text: string)
    | Heading(md: string, heading: string, lvl: int)
    | Table(md: string, rows: seq<seq<string>>, csv: string, isPerfectTable: bool := false)

  /** Which variant an item is, apart from its fields. */
  datatype Kind = TextKind | HeadingKind | TableKind

  function KindOf(item: PageItem): Kind
  {
    match item
    case Text(_, _) => TextKind
    case Heading(_, _, _) => HeadingKind
    case Table(_, _, _, _) => TableKind
  }

  /** The discriminator string of each variant. */
  function KindTag(k: Kind): string
  {
    match k
    case TextKind => "text"
    case HeadingKind => "heading"
    case TableKind => "table"
  }

  /** The three discriminators a reader accepts. */
  const KnownTags: set<string> := {"text", "heading", "table"}

  /**
   * The reader's tag table: the variant a discriminator selects, `None` (a decoding
   * error) for anything that is not one of the three known tags.
   */
  function VariantForTag(s: string): (r: Option<Kind>)
    ensures r.Some? <==> s in KnownTags
    ensures r.Some? ==> KindTag(r.value) == s
  {
    if s == "text" then Some(TextKind)
    else if s == "heading" then Some(HeadingKind)
    else if s == "table" then Some(TableKind)
    else None
  }

  /** The discriminator written for `item`; reading it back selects `item`'s own variant. */
  function Tag(item: PageItem): (r: string)
    ensures r in KnownTags
    ensures VariantForTag(r) == Some(KindOf(item))
  {
    KindTag(KindOf(item))
  }

  /** Different variants are written with different discriminators. */
  lemma TagDeterminesKind(a: PageItem, b: PageItem)
    ensures Tag(a) == Tag(b) <==> KindOf(a) == KindOf(b)
  {
  }

  /**
   * The tag table is a bijection between the variants and the known tags: distinct
   * variants have distinct tags, each variant's tag reads back as that variant, and the
   * known tags are exactly the tags of the variants.
   */
  lemma TagTableBijective(s: string, k1: Kind, k2: Kind)
    ensures KindTag(k1) == KindTag(k2) <==> k1 == k2
    ensures VariantForTag(KindTag(k1)) == Some(k1)
    ensures s in KnownTags <==> exists k :: KindTag(k) == s
  {
    if s in KnownTags {
      assert KindTag(VariantForTag(s).value) == s;
    }
  }

}
