/**
 * Parsed files: the root of the document model, a named ordered list of sections, with
 * the operators that combine files and the Markdown view of a whole file.
 */
module ParsedFiles {
  import opened Wrappers
  import opened Strings
  import opened PageItems
  import opened Sections

  /** A parsed file: its name and its sections in reading order. */
  datatype ParsedFile = ParsedFile(name: string, sections: seq<Section>)

  /** The name given to a file built by `FromParsedFiles`. */
  const MergedFileName: string := "MergedFile"

  /** The separator the Markdown view puts between sections. */
  const LineBreak: char := '\n'

  // ---------------------------------------------------------------------------
  // Flattening the sections of several files
  // ---------------------------------------------------------------------------

  /** Total number of sections held by `files`. */
  function SectionCount(files: seq<ParsedFile>): nat
  {
    if files == [] then 0 else |files[0].sections| + SectionCount(files[1..])
  }

  /**
   * The sections of every file of `files`, file by file in input order
   * (`chain(*[f.sections for f in files])`).
   */
  function AllSections(files: seq<ParsedFile>): (r: seq<Section>)
    ensures |r| == SectionCount(files)
    ensures files == [] ==> r == []
  {
    if files == [] then [] else files[0].sections + AllSections(files[1..])
  }

  /** Flattening distributes over concatenation of the file lists. */
  lemma {:induction false} AllSectionsAppend(xs: seq<ParsedFile>, ys: seq<ParsedFile>)
    ensures AllSections(xs + ys) == AllSections(xs) + AllSections(ys)
  {
    if xs == [] {
      assert xs + ys == ys;
    } else {
      assert (xs + ys)[0] == xs[0];
      assert (xs + ys)[1..] == xs[1..] + ys;
      AllSectionsAppend(xs[1..], ys);
    }
  }

  /**
   * Section `j` of file `i` sits in the flattening right after the sections of the files
   * before `i`: the flattening keeps every section, in order.
   */
  lemma {:induction false} AllSectionsAt(files: seq<ParsedFile>, i: nat, j: nat)
    requires i < |files| && j < |files[i].sections|
    ensures SectionCount(files[..i]) + j < |AllSections(files)|
    ensures AllSections(files)[SectionCount(files[..i]) + j] == files[i].sections[j]
  {
    if i == 0 {
      assert files[..0] == [];
    } else {
      AllSectionsAt(files[1..], i - 1, j);
      assert files[..i][0] == files[0];
      assert files[..i][1..] == files[1..][..i - 1];
    }
  }

  /** A section occurs in the flattening exactly when it occurs in one of the files. */
  lemma {:induction false} AllSectionsMembers(files: seq<ParsedFile>, s: Section)
    ensures s in AllSections(files) <==> exists i :: 0 <= i < |files| && s in files[i].sections
  {
    if files != [] {
      AllSectionsMembers(files[1..], s);
      if s in AllSections(files[1..]) {
        var i :| 0 <= i < |files[1..]| && s in files[1..][i].sections;
        assert files[i + 1] == files[1..][i];
      }
      if exists i :: 0 <= i < |files| && s in files[i].sections {
        var i :| 0 <= i < |files| && s in files[i].sections;
        if i > 0 {
          assert files[1..][i - 1] == files[i];
        }
      }
    }
  }

  // ---------------------------------------------------------------------------
  // Combining files
  // ---------------------------------------------------------------------------

  /**
   * `primary.merge_all(others)`, with the receiver as `primary`: a file named after
   * `primary` whose sections are `primary`'s followed by those of each of `others` in
   * input order, with no renumbering or deduplication.
   */
  function MergeAll(primary: ParsedFile, others: seq<ParsedFile>): (r: ParsedFile)
    ensures r.name == primary.name
    ensures |r.sections| == |primary.sections| + SectionCount(others)
    ensures r.sections[..|primary.sections|] == primary.sections
    ensures r.sections[|primary.sections|..] == AllSections(others)
    ensures others == [] ==> r == primary
  {
    ParsedFile(primary.name, primary.sections + AllSections(others))
  }

  /** `ParsedFile.from_sections(name, sections)`: the two arguments, unchanged. */
  function FromSections(name: string, sections: seq<Section>): (r: ParsedFile)
    ensures r.name == name && r.sections == sections
  {
    ParsedFile(name, sections)
  }

  /**
   * `ParsedFile.from_parsed_files(files)`: a file always named `MergedFile` whose sections
   * are the sections of all `files` in input order; no files give no sections.
   */
  function FromParsedFiles(files: seq<ParsedFile>): (r: ParsedFile)
    ensures r.name == MergedFileName
    ensures r.sections == AllSections(files)
    ensures |r.sections| == SectionCount(files)
    ensures files == [] ==> r.sections == []
  {
    ParsedFile(MergedFileName, AllSections(files))
  }

  /** Rebuilding a file from its own fields gives the file back. */
  lemma FromSectionsOfFields(f: ParsedFile)
    ensures FromSections(f.name, f.sections) == f
  {
  }

  /** Merging in two batches is merging in one batch made of both, in order. */
  lemma MergeAllAssociative(a: ParsedFile, xs: seq<ParsedFile>, ys: seq<ParsedFile>)
    ensures MergeAll(MergeAll(a, xs), ys) == MergeAll(a, xs + ys)
  {
    AllSectionsAppend(xs, ys);
    assert (a.sections + AllSections(xs)) + AllSections(ys) == a.sections + (AllSections(xs) + AllSections(ys));
  }

  /** `merge_all` and `from_parsed_files` produce the same sections; only the name differs. */
  lemma MergeAllMatchesFromParsedFiles(a: ParsedFile, others: seq<ParsedFile>)
    ensures MergeAll(a, others).sections == FromParsedFiles([a] + others).sections
  {
  }

  /** Merging one other file appends its sections, each unchanged. */
  lemma MergeAllOne(a: ParsedFile, b: ParsedFile)
    ensures MergeAll(a, [b]).sections == a.sections + b.sections
  {
  }

  /**
   * Two single-section files merged: two sections, both numbered 1, in input order,
   * under the first file's name.
   */
  lemma MergeAllExample()
    ensures var hello := Section(1, "Hello ");
            var world := Section(1, "World");
      MergeAll(ParsedFile("f1", [hello]), [ParsedFile("f2", [world])]) == ParsedFile("f1", [hello, world])
  {
  }

  // ---------------------------------------------------------------------------
  // The Markdown view
  // ---------------------------------------------------------------------------

  /** Each section's markup, absent markup read as the empty string. */
  function SectionMarkups(sections: seq<Section>): (r: seq<string>)
    ensures |r| == |sections|
    ensures forall i :: 0 <= i < |sections| ==> r[i] == MdOrEmpty(sections[i])
  {
    if sections == [] then [] else [MdOrEmpty(sections[0])] + SectionMarkups(sections[1..])
  }

  /**
   * The file's `md` property: the sections' markups in order, one line break between
   * neighbours. A file without sections has the empty view.
   */
  function Md(f: ParsedFile): (r: string)
    ensures f.sections == [] ==> r == ""
    ensures |f.sections| >= 1 ==> |r| == TotalLength(SectionMarkups(f.sections)) + |f.sections| - 1
    ensures |f.sections| >= 1 ==> r[..|MdOrEmpty(f.sections[0])|] == MdOrEmpty(f.sections[0])
  {
    Join(LineBreak, SectionMarkups(f.sections))
  }

  /** `n >= 1` sections give `n - 1` line breaks besides those inside the markups. */
  lemma MdLineBreakCount(f: ParsedFile)
    requires |f.sections| >= 1
    ensures Count(LineBreak, Md(f)) == TotalCount(LineBreak, SectionMarkups(f.sections)) + |f.sections| - 1
  {
    JoinSeparatorCount(LineBreak, SectionMarkups(f.sections));
  }

  /**
   * When no markup holds a line break, the view has exactly `n - 1` of them and splitting
   * it at line breaks recovers every section's markup in order.
   */
  lemma MdSplitsBack(f: ParsedFile)
    requires |f.sections| >= 1
    requires NoneContains(LineBreak, SectionMarkups(f.sections))
    ensures Count(LineBreak, Md(f)) == |f.sections| - 1
    ensures Split(LineBreak, Md(f)) == SectionMarkups(f.sections)
  {
    MdLineBreakCount(f);
    TotalCountAbsent(LineBreak, SectionMarkups(f.sections));
    SplitJoin(LineBreak, SectionMarkups(f.sections));
  }

  /** An absent markup contributes exactly what an empty one does. */
  lemma MdAbsentAsEmpty(f: ParsedFile, i: nat)
    requires i < |f.sections| && f.sections[i].md.None?
    ensures Md(ParsedFile(f.name, f.sections[i := f.sections[i].(md := Some(""))])) == Md(f)
  {
    var g := f.sections[i := f.sections[i].(md := Some(""))];
    assert SectionMarkups(g) == SectionMarkups(f.sections);
  }

  /** A single section without markup gives the empty view, not a placeholder such as "None". */
  lemma MdSingleAbsent(name: string, s: Section)
    requires s.md.None?
    ensures Md(ParsedFile(name, [s])) == ""
  {
  }

  /** The documented example: markups "# A" and "# B" give "# A\n# B". */
  lemma MdExample()
    ensures Md(ParsedFile("doc", [Section(1, "", Some("# A")), Section(2, "", Some("# B"))])) == "# A\n# B"
  {
  }

  /** The view of a merge of two non-empty files is the two views joined by one line break. */
  lemma MdOfMergeAll(a: ParsedFile, b: ParsedFile)
    requires |a.sections| >= 1 && |b.sections| >= 1
    ensures Md(MergeAll(a, [b])) == Md(a) + [LineBreak] + Md(b)
  {
    MergeAllOne(a, b);
    var ms := SectionMarkups(a.sections + b.sections);
    assert ms == SectionMarkups(a.sections) + SectionMarkups(b.sections);
    JoinAppend(LineBreak, SectionMarkups(a.sections), SectionMarkups(b.sections));
  }
}
