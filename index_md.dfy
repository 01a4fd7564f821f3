/** The emitter (`create_index_md`): the fixed front-matter document written
    for an entry, and the output tree it is written into. Directories and
    files are modelled as one table from directory name (an entry's
    `number`) to the content of the `index.md` inside it. */
module IndexMd {
  import opened Text
  import opened Publication

  /** The lines of the document, in order; the template ends every line,
      the last `---` included, with a newline. */
  function FrontMatterLines(e: Entry): seq<string> {
    [ "---",
      "title: " + e.title,
      "author_text: " + e.authorText,
      "other_text: " + e.otherText,
      "",
      "year: \"" + e.year + "\"",
      "doi: \"\"",
      "publication_types: [\"" + KindName(e.kind) + "\"]",
      "---" ]
  }

  /** The content written to `<number>/index.md`. It depends on the entry
      alone and is delimited by `---` lines at both ends. */
  function Render(e: Entry): (doc: string)
    ensures HasPrefix(doc, "---\n")
    ensures |doc| >= 4 && doc[|doc| - 4..] == "---\n"
  {
    var ls := FrontMatterLines(e);
    JoinLast(ls);
    Join(ls)
  }

  lemma {:induction false} JoinLast(ls: seq<string>)
    requires ls != []
    ensures Join(ls) == Join(ls[..|ls| - 1]) + ls[|ls| - 1] + "\n"
  {
    if |ls| > 1 {
      JoinLast(ls[1..]);
      assert ls[1..][..|ls| - 2] == ls[..|ls| - 1][1..];
    }
  }

  /** What a document states about its entry: every field but the number,
      which names the directory instead. */
  datatype Metadata = Metadata(
    title: string,
    authorText: string,
    otherText: string,
    year: string,
    kind: Kind)

  function MetadataOf(e: Entry): Metadata {
    Metadata(e.title, e.authorText, e.otherText, e.year, e.kind)
  }

  /** The tag read back from `publication_types`. */
  function KindOfName(s: string): (r: Option<Kind>)
    ensures r.Some? ==> KindName(r.value) == s
  {
    if s == "English" then Some(English)
    else if s == "中文" then Some(Chinese)
    else None
  }

  /** Reads a document of the template's shape back into its fields. */
  function ReadIndexMd(doc: string): Option<Metadata> {
    var ls := SplitLines(doc);
    if |ls| == 9 && ls[0] == "---" && ls[4] == "" && ls[6] == "doi: \"\"" && ls[8] == "---" then
      var t := Between(ls[1], "title: ", "");
      var a := Between(ls[2], "author_text: ", "");
      var o := Between(ls[3], "other_text: ", "");
      var y := Between(ls[5], "year: \"", "\"");
      var k := Between(ls[7], "publication_types: [\"", "\"]");
      if t.Some? && a.Some? && o.Some? && y.Some? && k.Some? && KindOfName(k.value).Some?
      then Some(Metadata(t.value, a.value, o.value, y.value, KindOfName(k.value).value))
      else None
    else None
  }

  /** An entry whose fields fit on one line each. */
  predicate Renderable(e: Entry) {
    '\n' !in e.title && '\n' !in e.authorText && '\n' !in e.otherText && '\n' !in e.year
  }

  /** The document holds the template's nine lines, and reading it back
      gives the entry's fields. */
  lemma RenderReadBack(e: Entry)
    requires Renderable(e)
    ensures SplitLines(Render(e)) == FrontMatterLines(e)
    ensures ReadIndexMd(Render(e)) == Some(MetadataOf(e))
  {
    RenderSplits(e);
    ReadFields(e);
  }

  lemma RenderSplits(e: Entry)
    requires Renderable(e)
    ensures SplitLines(Render(e)) == FrontMatterLines(e)
  {
    var ls := FrontMatterLines(e);
    assert '\n' !in KindName(e.kind);
    forall k | 0 <= k < |ls| ensures '\n' !in ls[k] {
    }
    SplitJoin(ls);
  }

  /** Each field line gives back its field. */
  lemma ReadFields(e: Entry)
    requires SplitLines(Render(e)) == FrontMatterLines(e)
    ensures ReadIndexMd(Render(e)) == Some(MetadataOf(e))
  {
    var ls := FrontMatterLines(e);
    BetweenOf("title: ", e.title, "");
    assert ls[1] == "title: " + e.title + "";
    BetweenOf("author_text: ", e.authorText, "");
    assert ls[2] == "author_text: " + e.authorText + "";
    BetweenOf("other_text: ", e.otherText, "");
    assert ls[3] == "other_text: " + e.otherText + "";
    BetweenOf("year: \"", e.year, "\"");
    BetweenOf("publication_types: [\"", KindName(e.kind), "\"]");
  }

  /** Documents that agree agree on every field they render. */
  lemma RenderInjective(e1: Entry, e2: Entry)
    requires Renderable(e1) && Renderable(e2)
    requires Render(e1) == Render(e2)
    ensures MetadataOf(e1) == MetadataOf(e2)
  {
    RenderReadBack(e1);
    RenderReadBack(e2);
  }

  // ---------------------------------------------------------------------
  // The output tree

  /** The table after writing one entry: its directory holds its document,
      every other directory is as it was. */
  function Written(files: map<string, string>, e: Entry): (r: map<string, string>)
    ensures r.Keys == files.Keys + {e.number}
    ensures r[e.number] == Render(e)
    ensures forall k :: k in files && k != e.number ==> r[k] == files[k]
  {
    files[e.number := Render(e)]
  }

  /** Writing the same entry again changes nothing, because the write
      overwrites. */
  lemma WrittenIdempotent(files: map<string, string>, e: Entry)
    ensures Written(Written(files, e), e) == Written(files, e)
  {
  }

  /** The table after writing a sequence of entries in order. */
  function WriteAll(files: map<string, string>, es: seq<Entry>): map<string, string>
    decreases |es|
  {
    if es == [] then files else Written(WriteAll(files, es[..|es| - 1]), es[|es| - 1])
  }

  /** A directory written more than once holds the last entry written to
      it. */
  lemma {:induction false} WriteAllLast(files: map<string, string>, es: seq<Entry>, a: nat)
    requires a < |es|
    requires forall b :: a < b < |es| ==> es[b].number != es[a].number
    ensures es[a].number in WriteAll(files, es)
    ensures WriteAll(files, es)[es[a].number] == Render(es[a])
  {
    if a < |es| - 1 {
      WriteAllLast(files, es[..|es| - 1], a);
    }
  }

  /** A directory no entry names keeps whatever it held before. */
  lemma {:induction false} WriteAllUntouched(files: map<string, string>, es: seq<Entry>, key: string)
    requires forall b :: 0 <= b < |es| ==> es[b].number != key
    ensures key in WriteAll(files, es) <==> key in files
    ensures key in files ==> WriteAll(files, es)[key] == files[key]
  {
    if es != [] {
      WriteAllUntouched(files, es[..|es| - 1], key);
    }
  }

  /** The output directory: directory names and the `index.md` each holds. */
  class OutputTree {
    var files: map<string, string>

    constructor (initial: map<string, string>)
      ensures files == initial
    {
      files := initial;
    }

    /** `create_index_md`: creates the entry's directory when missing and
        overwrites its `index.md`. */
    method CreateIndexMd(entry: Entry)
      modifies this
      ensures files == Written(old(files), entry)
    {
      var content := Render(entry);
      files := files[entry.number := content];
    }
  }
}
