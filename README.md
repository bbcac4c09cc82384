# intelliparse document model in Dafny

This project models the document intermediate representation of intelliparse, the format-agnostic structure that every file parser produces, and proves the laws of its composition operators.

- A **page item** is a closed tagged union of three variants: text, heading and table. Each variant carries its Markdown `md` and a fixed discriminator: `"text"`, `"heading"` or `"table"`. A reader selects the variant by that discriminator and rejects any other string.
- An **image** is an opaque value held in a section's list of images.
- A **section** holds a page number, plain text, optional Markdown, images and items. Its identifier is `page_<number>`. Two sections merge with `+`: the left number is kept, everything else is concatenated left then right, and absent Markdown counts as empty.
- A **parsed file** holds a name and its sections in reading order.
  - `merge_all` appends the sections of other files under the receiver's name. The receiver is the file its docstring calls the "first" one, as its example at `types.py` lines 836-838 shows, so the docstring and the code agree.
  - `from_parsed_files` flattens any number of files under the fixed name `MergedFile`.
  - `from_sections` builds a file from a name and sections.
  - The `md` view joins every section's Markdown with line breaks.

Modules:
- `Wrappers` holds `Option`.
- `Strings` holds `join`/`split` on a one-character separator, occurrence counting, and Python's decimal rendering of an `int`.
- `PageItems`, `Sections` and `ParsedFiles` follow the classes of `src/intelliparse/types.py`.

Every type in the source is a frozen struct, so every operation is a pure function. Each function is paired with an inverse or a law:
- `split` undoes `join`.
- Parsing an identifier undoes `get_id`.
- Flattening distributes over concatenation of file lists.
- Both merges are associative.

## Model

| member | source | states |
|---|---|---|
| `PageItems.VariantForTag` | src/intelliparse/types.py:211-340 | the tag table accepts exactly "text", "heading" and "table", and each accepted tag selects the variant written with that tag; any other string is a decoding failure (`None`) |
| `PageItems.Tag` | src/intelliparse/types.py:253-340 | an item's discriminator is one of the three known tags, and reading it back selects the item's own variant |
| `PageItems.TagDeterminesKind` | src/intelliparse/types.py:253-340 | two items are written with the same discriminator if and only if they are the same variant |
| `PageItems.TagTableBijective` | src/intelliparse/types.py:211-340 | the tag table is a bijection: two variants have the same tag if and only if they are the same variant, every variant's tag reads back as that variant, and a string is a known tag if and only if it is the tag of some variant |
| `Strings.IntToDecimal` | src/intelliparse/types.py:549 | the rendering of an integer is non-empty and starts with a digit exactly when the integer is non-negative (a `-` otherwise) |
| `Strings.DecimalInjective` | src/intelliparse/types.py:549 | two integers render to the same string if and only if they are equal |
| `Sections.GetId` | src/intelliparse/types.py:548-549 | the identifier starts with `page_`, has more after it, and parsing it gives back the section's number |
| `Sections.GetIdInjective` | src/intelliparse/types.py:548-549 | two sections have the same identifier if and only if they have the same number |
| `Sections.Merge` | src/intelliparse/types.py:551-560 | the merge keeps `a`'s number. Its text is `a`'s then `b`'s, with lengths adding and no separator. Its Markdown is always present and is `a`'s then `b`'s, an absent one read as empty. Its images and items are `a`'s then `b`'s, in order, with lengths adding |
| `Sections.MergeAssociative` | src/intelliparse/types.py:551-560 | `(a + b) + c == a + (b + c)` in every field |
| `Sections.MergeEmptyRight` | src/intelliparse/types.py:557 | adding an empty section on the right gives back `a` if and only if `a` has Markdown (absent Markdown turns into present, empty Markdown) |
| `Sections.MergeEmptyLeft` | src/intelliparse/types.py:554-557 | adding `b` to an empty section numbered `n` gives back `b` if and only if `b` has Markdown and number `n` |
| `Sections.MergeNotCommutative` | src/intelliparse/types.py:554-556 | swapping the operands changes the result: the number and the order of content follow the left operand |
| `Sections.MergeDocumentedExample` | src/intelliparse/types.py:500-504 | the documented example gives text "Section 1 TextSection 2 Text", Markdown "# Section 1# Section 2" and number 1 |
| `ParsedFiles.AllSections` | src/intelliparse/types.py:949 | the flattening has as many sections as all files together, and none for no files |
| `ParsedFiles.AllSectionsAppend` | src/intelliparse/types.py:949 | flattening `xs + ys` is flattening `xs` followed by flattening `ys` |
| `ParsedFiles.AllSectionsAt` | src/intelliparse/types.py:949 | section `j` of file `i` appears unchanged in the flattening, at the offset of the sections of the files before `i` plus `j` |
| `ParsedFiles.AllSectionsMembers` | src/intelliparse/types.py:949 | a section is in the flattening if and only if it is in one of the files |
| `ParsedFiles.MergeAll` | src/intelliparse/types.py:931-937 | the result keeps `self`'s name. It starts with `self`'s sections, then the other files' sections in input order, and the section counts add up. With no other files the result is `self` |
| `ParsedFiles.MergeAllAssociative` | src/intelliparse/types.py:931-937 | merging `xs` and then `ys` is the same as merging `xs + ys` |
| `ParsedFiles.MergeAllOne` | src/intelliparse/types.py:931-937 | merging one file appends its sections unchanged |
| `ParsedFiles.MergeAllExample` | src/intelliparse/types.py:931-937 | "f1" with section 1 "Hello " merged with "f2" with section 1 "World" gives "f1" with both sections, both numbered 1, in that order |
| `ParsedFiles.MergeAllMatchesFromParsedFiles` | src/intelliparse/types.py:931-950 | `a.merge_all(others)` has the same sections as `from_parsed_files([a] + others)` |
| `ParsedFiles.FromSections` | src/intelliparse/types.py:939-941 | the result holds the given name and sections unchanged |
| `ParsedFiles.FromSectionsOfFields` | src/intelliparse/types.py:939-941 | rebuilding a file from its own name and sections gives the same file |
| `ParsedFiles.FromParsedFiles` | src/intelliparse/types.py:943-950 | the result is always named "MergedFile"; its sections are the in-order flattening of all inputs' sections (so their count is the inputs' total), and no inputs give no sections |
| `ParsedFiles.SectionMarkups` | src/intelliparse/types.py:954 | there is one markup per section, in order, each being that section's Markdown or "" when it has none |
| `Strings.Join` | src/intelliparse/types.py:954 | joining no parts gives "". Joining n ≥ 1 parts gives length total + n − 1 and starts with the first part |
| `Strings.JoinSeparatorCount` | src/intelliparse/types.py:954 | joining n ≥ 1 parts inserts exactly n − 1 separators |
| `Strings.SplitJoin` | src/intelliparse/types.py:954 | when no part holds the separator, splitting the join gives back the parts |
| `Strings.JoinAppend` | src/intelliparse/types.py:954 | joining `xs + ys`, both non-empty, is the two joins with one separator between them |
| `ParsedFiles.Md` | src/intelliparse/types.py:952-954 | a file with no sections has the empty view. Otherwise the view's length is the markups' total length plus n − 1, and it starts with the first section's markup |
| `ParsedFiles.MdLineBreakCount` | src/intelliparse/types.py:952-954 | n ≥ 1 sections give n − 1 line breaks besides those inside the markups |
| `ParsedFiles.MdSplitsBack` | src/intelliparse/types.py:952-954 | when no markup holds a line break, the view has exactly n − 1 line breaks, and splitting it gives back every section's markup in order |
| `ParsedFiles.MdAbsentAsEmpty` | src/intelliparse/types.py:954 | a section with absent Markdown contributes the same as one with empty Markdown |
| `ParsedFiles.MdSingleAbsent` | src/intelliparse/types.py:954 | a single section without Markdown gives "", not a placeholder such as "None" |
| `ParsedFiles.MdExample` | src/intelliparse/types.py:952-954 | markups "# A" and "# B" give "# A\n# B" |
| `ParsedFiles.MdOfMergeAll` | src/intelliparse/types.py:931-954 | the view of two non-empty files merged is the first view, one line break, then the second view |

## Left out

- `get_schema` and `get_schema_async` are left out. They send the sections' text to an external language model through a foreign client library, which is network I/O.
- msgspec encoding and decoding are left out: the wire format, field-level decoding, and the enforcement of `ge=0` and `min_length=1` metadata all happen inside msgspec, which is not part of this model. Of the tagged-union contract, only the discriminator table is modelled (`VariantForTag`, `Tag`). The claim that `decode(encode(item)) == item` for every field is therefore not stated.
- The floating-point fields are left out: `Image.height`, `Image.width` and `JobMetadata.credits_used`. The rest of `Image` is kept, but it is treated as an opaque value.
- `JobMetadata` and `Schema` are left out. They are plain records whose only constraints are checked by msgspec, so there is no logic to model.
- The PDF and PPTX mirror structs (`types.py` lines 984 onward) are left out. They have no operations, and they use datetimes, floats and untyped dictionaries.
- `RawFile` is left out. It is a thin subclass of a class from an external library.
- `llm_described_text` is left out. It only formats a prompt and promises no contract. It also interpolates each section's Markdown directly, so it is a different view from `md`.
- GetId: the error path is not modelled. Python refuses to render an integer with more decimal digits than `sys.int_max_str_digits` (4300 by default) and raises `ValueError`, so `get_id` raises for such a `number`. `GetId` and `Strings.IntToDecimal` are total and render every integer.
