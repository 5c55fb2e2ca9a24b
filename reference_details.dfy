/**
 * The reference details panel: BibTeX and APA export, collection membership, the
 * update object built when a PDF is attached, and the update object built when the
 * reference is refreshed from its DOI.
 */
module ReferenceDetails {
  import opened Wrappers
  import opened Text
  import opened References
  import DoiLookup

  // ---------------------------------------------------------------------------
  // BibTeX export
  // ---------------------------------------------------------------------------

  /** The BibTeX entry type of each reference type the library knows. */
  const EntryTypes: map<string, string> := map[
    "Journal Article" := "article",
    "Conference Paper" := "inproceedings",
    "Book Chapter" := "inbook",
    "Book" := "book",
    "Thesis" := "phdthesis",
    "Technical Report" := "techreport",
    "Preprint" := "misc"]

  const BibTeXTypes: set<string> := {"article", "inproceedings", "inbook", "book", "phdthesis", "techreport", "misc"}

  /** The entry type of a reference type, `article` for a type outside the table. */
  function EntryType(refType: string): (e: string)
    ensures e in BibTeXTypes
    ensures refType !in EntryTypes ==> e == "article"
  {
    if refType in EntryTypes then EntryTypes[refType] else "article"
  }

  /** Every reference type of the library has its own entry type; only journal articles become `article`. */
  lemma EntryTypesDistinct(a: string, b: string)
    requires a in DoiLookup.ReferenceTypes && b in DoiLookup.ReferenceTypes && a != b
    ensures EntryType(a) != EntryType(b)
  {
  }

  /** The letters of the first author's text before its first comma, or `Unknown` when there are none. */
  function AuthorStem(authors: seq<string>): (stem: string)
    ensures stem != []
    ensures forall i :: 0 <= i < |stem| ==> IsLetter(stem[i])
    ensures |authors| > 0 && LettersOnly(BeforeChar(authors[0], ',')) != [] ==>
              stem == LettersOnly(BeforeChar(authors[0], ','))
    ensures |authors| == 0 || LettersOnly(BeforeChar(authors[0], ',')) == [] ==> stem == "Unknown"
  {
    var letters := if |authors| > 0 then LettersOnly(BeforeChar(authors[0], ',')) else [];
    if letters == [] then UnknownLetters(); "Unknown" else letters
  }

  lemma UnknownLetters()
    ensures forall i :: 0 <= i < |"Unknown"| ==> IsLetter("Unknown"[i])
  {
  }

  /** The stored citation key if there is one, else the author stem followed by the year. */
  function CitationKey(r: Reference): (key: string)
  {
    if r.citationKey != [] then r.citationKey else AuthorStem(r.authors) + r.year
  }

  /** The stored key wins; otherwise the key is a non-empty run of letters followed by the year. */
  lemma CitationKeyShape(r: Reference)
    ensures r.citationKey != [] ==> CitationKey(r) == r.citationKey
    ensures r.citationKey == [] ==> CitationKey(r) == AuthorStem(r.authors) + r.year
    ensures r.citationKey == [] ==>
      exists stem :: stem != [] && (forall i :: 0 <= i < |stem| ==> IsLetter(stem[i])) &&
                     CitationKey(r) == stem + r.year
    ensures r.citationKey == [] && |r.authors| > 0 && LettersOnly(BeforeChar(r.authors[0], ',')) != [] ==>
      CitationKey(r) == LettersOnly(BeforeChar(r.authors[0], ',')) + r.year
    ensures r.citationKey == [] && (r.authors == [] || LettersOnly(BeforeChar(r.authors[0], ',')) == []) ==>
      CitationKey(r) == "Unknown" + r.year
  {
    if r.citationKey == [] {
      var stem := AuthorStem(r.authors);
      assert CitationKey(r) == stem + r.year;
    }
  }

  /** One field of a BibTeX entry. */
  datatype Field = Field(name: string, value: string)

  /** The field names in output order. */
  const FieldOrder: seq<string> :=
    ["title", "author", "editor", "journal", "year", "volume", "number", "pages", "doi",
     "publisher", "isbn", "issn", "url", "abstract"]

  /** The number of fields an entry can carry. */
  const FieldCount := 14

  /**
   * The `k`-th field the entry can carry, in output order, with whether it is emitted:
   * the title always, every other field when the reference has it.
   */
  function Candidate(r: Reference, k: nat): (bool, Field)
    requires k < FieldCount
  {
    match k
    case 0 => (true, Field("title", r.title))
    case 1 => (|r.authors| > 0, Field("author", Join(r.authors, " and ")))
    case 2 => (|r.editors| > 0, Field("editor", Join(r.editors, " and ")))
    case 3 => (r.journal != [], Field("journal", r.journal))
    case 4 => (r.year != [], Field("year", r.year))
    case 5 => (r.volume != [], Field("volume", r.volume))
    case 6 => (r.issue != [], Field("number", r.issue))
    case 7 => (r.pages != [], Field("pages", r.pages))
    case 8 => (r.doi != [], Field("doi", r.doi))
    case 9 => (r.publisher != [], Field("publisher", r.publisher))
    case 10 => (r.isbn != [], Field("isbn", r.isbn))
    case 11 => (r.issn != [], Field("issn", r.issn))
    case 12 => (r.url != [], Field("url", r.url))
    case _ => (r.abstractText != [], Field("abstract", RemoveChars(r.abstractText, {'{', '}'})))
  }

  /** All the fields the entry can carry, in output order. */
  function Candidates(r: Reference): (cs: seq<(bool, Field)>)
    ensures |cs| == FieldCount
  {
    seq(FieldCount, k requires 0 <= k < FieldCount => Candidate(r, k))
  }

  /** The fields whose flag is set, in their order. */
  function Kept(cs: seq<(bool, Field)>): seq<Field>
  {
    if cs == [] then []
    else Kept(cs[..|cs| - 1]) + (if cs[|cs| - 1].0 then [cs[|cs| - 1].1] else [])
  }

  /** The fields of the entry. */
  function Fields(r: Reference): seq<Field>
  {
    Kept(Candidates(r))
  }

  /** One field as the entry prints it, without the separator that follows it. */
  function Line(f: Field): string
  {
    "  " + f.name + "={" + f.value + "}"
  }

  /** The field lines joined by `,\n`: no comma after the last one. */
  function JoinLines(fs: seq<Field>): string
  {
    if fs == [] then [] else if |fs| == 1 then Line(fs[0]) else Line(fs[0]) + ",\n" + JoinLines(fs[1..])
  }

  /** The opening line: entry type and citation key. */
  function Header(r: Reference): string
  {
    "@" + EntryType(r.refType) + "{" + CitationKey(r) + ",\n"
  }

  /** The BibTeX entry of a reference. */
  function BibTeX(r: Reference): string
  {
    Header(r) + JoinLines(Fields(r)) + "\n}"
  }

  /** A field line followed by `,\n`, as the export appends it with `+=`. */
  function Entry(f: Field): string
  {
    "  " + f.name + "={" + f.value + "},\n"
  }

  lemma EntryIsLine(f: Field)
    ensures Entry(f) == Line(f) + ",\n"
  {
    assert "},\n" == "}" + ",\n";
  }

  /** Every field line followed by `,\n`: the text the export accumulates before its final slice. */
  function Accumulated(fs: seq<Field>): string
  {
    if fs == [] then [] else Accumulated(fs[..|fs| - 1]) + Entry(fs[|fs| - 1])
  }

  /** The accumulated lines are the lines joined by `,\n` plus one more `,\n` at the end. */
  lemma {:induction false} AccumulatedIsJoined(fs: seq<Field>)
    requires fs != []
    ensures Accumulated(fs) == JoinLines(fs) + ",\n"
    decreases |fs|
  {
    var last := fs[|fs| - 1];
    var init := fs[..|fs| - 1];
    EntryIsLine(last);
    if |fs| == 1 {
      assert init == [];
    } else {
      AccumulatedIsJoined(init);
      JoinLinesSnoc(init, last);
      assert init + [last] == fs;
    }
  }

  /** Appending a field to joined lines adds `,\n` and its line. */
  lemma {:induction false} JoinLinesSnoc(fs: seq<Field>, f: Field)
    requires fs != []
    ensures JoinLines(fs + [f]) == JoinLines(fs) + ",\n" + Line(f)
    decreases |fs|
  {
    var g := fs + [f];
    var first, last := Line(fs[0]), Line(f);
    assert g[0] == fs[0];
    if |fs| == 1 {
      assert g[1..] == [f];
      assert JoinLines(g[1..]) == last;
      assert JoinLines(fs) == first;
    } else {
      assert g[1..] == fs[1..] + [f];
      JoinLinesSnoc(fs[1..], f);
      var rest := JoinLines(fs[1..]);
      assert JoinLines(g) == first + ",\n" + (rest + ",\n" + last);
      assert JoinLines(fs) == first + ",\n" + rest;
    }
  }

  /** Slicing off a known suffix leaves the prefix. */
  lemma DropSuffix(a: string, b: string)
    ensures (a + b)[..|a|] == a
  {
  }

  /** The text accumulated after the steps `cs`: `h`, then each emitted field with `,\n`. */
  function Draft(h: string, cs: seq<(bool, Field)>): string
  {
    if cs == [] then h
    else Draft(h, cs[..|cs| - 1]) + (if cs[|cs| - 1].0 then Entry(cs[|cs| - 1].1) else [])
  }

  /** The draft is the header followed by the accumulated lines of the emitted fields. */
  lemma {:induction false} DraftIsAccumulated(h: string, cs: seq<(bool, Field)>)
    ensures Draft(h, cs) == h + Accumulated(Kept(cs))
    decreases |cs|
  {
    if cs != [] {
      var init := cs[..|cs| - 1];
      var c := cs[|cs| - 1];
      DraftIsAccumulated(h, init);
      var fs := Kept(init);
      if c.0 {
        AccumulatedSnoc(fs, c.1);
        assert Draft(h, cs) == (h + Accumulated(fs)) + Entry(c.1);
      } else {
        assert Kept(cs) == fs;
      }
    }
  }

  /** Accumulating one more field appends its entry. */
  lemma AccumulatedSnoc(fs: seq<Field>, f: Field)
    ensures Accumulated(fs + [f]) == Accumulated(fs) + Entry(f)
  {
    var g := fs + [f];
    assert g[..|g| - 1] == fs;
  }

  /** One step of the export: the field is appended, with `,\n`, exactly when it is emitted. */
  lemma DraftStep(h: string, cs: seq<(bool, Field)>, c: (bool, Field))
    ensures Draft(h, cs + [c]) == Draft(h, cs) + (if c.0 then Entry(c.1) else [])
  {
    assert (cs + [c])[..|cs|] == cs;
  }

  /** The text after the header and the first `k` field steps of the export. */
  function Prefix(r: Reference, k: nat): string
    requires k <= FieldCount
  {
    if k == 0 then Header(r)
    else Prefix(r, k - 1) + (if Candidate(r, k - 1).0 then Entry(Candidate(r, k - 1).1) else [])
  }

  /** Field by field, the export builds the draft of the candidates seen so far. */
  lemma {:induction false} PrefixIsDraft(r: Reference, k: nat)
    requires k <= FieldCount
    ensures Prefix(r, k) == Draft(Header(r), Candidates(r)[..k])
  {
    var cs := Candidates(r);
    if k == 0 {
      assert cs[..0] == [];
    } else {
      PrefixIsDraft(r, k - 1);
      DraftStep(Header(r), cs[..k - 1], cs[k - 1]);
      assert cs[..k - 1] + [cs[k - 1]] == cs[..k];
    }
  }

  /**
   * One `if (…) bibtex += …` step of the export: the line of field `k`, followed by `,\n`,
   * is appended when the field is emitted.
   */
  method AppendField(bibtex: string, r: Reference, k: nat) returns (next: string)
    requires k < FieldCount && bibtex == Prefix(r, k)
    ensures next == Prefix(r, k + 1)
  {
    var (emit, field) := Candidate(r, k);
    next := bibtex;
    if emit {
      next := next + Entry(field);
    }
  }

  /**
   * `copyBibTeX`: the entry is accumulated field by field in the fixed order, every field
   * line ending in `,\n`; the final two characters are then replaced by `\n}`.
   */
  method CopyBibTeX(r: Reference) returns (bibtex: string)
    ensures bibtex == BibTeX(r)
  {
    bibtex := OpenEntry(r);
    bibtex := AppendField(bibtex, r, 0);  // title
    bibtex := AppendField(bibtex, r, 1);  // author
    bibtex := AppendField(bibtex, r, 2);  // editor
    bibtex := AppendField(bibtex, r, 3);  // journal
    bibtex := AppendField(bibtex, r, 4);  // year
    bibtex := AppendField(bibtex, r, 5);  // volume
    bibtex := AppendField(bibtex, r, 6);  // number (the issue)
    bibtex := AppendField(bibtex, r, 7);  // pages
    bibtex := AppendField(bibtex, r, 8);  // doi
    bibtex := AppendField(bibtex, r, 9);  // publisher
    bibtex := AppendField(bibtex, r, 10);  // isbn
    bibtex := AppendField(bibtex, r, 11);  // issn
    bibtex := AppendField(bibtex, r, 12);  // url
    bibtex := AppendField(bibtex, r, 13);  // abstract, without braces
    CloseEntry(r, bibtex);
    bibtex := bibtex[..|bibtex| - 2] + "\n}";
  }

  /** The entry's first line: `@type{key,` and a line break. */
  method OpenEntry(r: Reference) returns (bibtex: string)
    ensures bibtex == Header(r)
  {
    var citationKey := CitationKey(r);
    var entryType := EntryType(r.refType);
    bibtex := "@" + entryType + "{" + citationKey + ",\n";
  }

  /** Replacing the final `,\n` of the full draft by `\n}` gives the entry. */
  lemma CloseEntry(r: Reference, draft: string)
    requires draft == Prefix(r, FieldCount)
    ensures |draft| >= 2 && draft[..|draft| - 2] + "\n}" == BibTeX(r)
  {
    FullPrefix(r);
    DropSuffix(Header(r) + JoinLines(Fields(r)), ",\n");
  }

  /** After all the field steps the draft is the header and the joined lines, with a trailing `,\n`. */
  lemma FullPrefix(r: Reference)
    ensures Prefix(r, FieldCount) == Header(r) + JoinLines(Fields(r)) + ",\n"
  {
    var cs := Candidates(r);
    PrefixIsDraft(r, FieldCount);
    assert cs[..FieldCount] == cs;
    DraftIsAccumulated(Header(r), cs);
    TitleAlwaysFirst(r);
    AccumulatedIsJoined(Fields(r));
  }

  /** The title field is always emitted, first, even when the title is empty. */
  lemma TitleAlwaysFirst(r: Reference)
    ensures |Fields(r)| >= 1 && Fields(r)[0] == Field("title", r.title)
  {
    KeptFirst(Candidates(r));
  }

  lemma {:induction false} KeptFirst(cs: seq<(bool, Field)>)
    requires cs != [] && cs[0].0
    ensures |Kept(cs)| >= 1 && Kept(cs)[0] == cs[0].1
    decreases |cs|
  {
    if |cs| > 1 {
      KeptFirst(cs[..|cs| - 1]);
      assert cs[..|cs| - 1][0] == cs[0];
    } else {
      assert cs[..0] == [];
    }
  }

  /** The positions of the kept candidates. */
  function KeptSlots(cs: seq<(bool, Field)>): seq<nat>
  {
    if cs == [] then []
    else KeptSlots(cs[..|cs| - 1]) + (if cs[|cs| - 1].0 then [|cs| - 1] else [])
  }

  /**
   * Keeping is filtering: the kept fields are exactly the flagged candidates, each once,
   * in their original order.
   */
  lemma {:induction false} KeptSlotsSpec(cs: seq<(bool, Field)>)
    ensures |KeptSlots(cs)| == |Kept(cs)|
    ensures forall j :: 0 <= j < |KeptSlots(cs)| ==>
      KeptSlots(cs)[j] < |cs| && cs[KeptSlots(cs)[j]].0 && Kept(cs)[j] == cs[KeptSlots(cs)[j]].1
    ensures forall j, l :: 0 <= j < l < |KeptSlots(cs)| ==> KeptSlots(cs)[j] < KeptSlots(cs)[l]
    ensures forall i :: 0 <= i < |cs| && cs[i].0 ==> i in KeptSlots(cs)
    decreases |cs|
  {
    if cs != [] {
      var init := cs[..|cs| - 1];
      KeptSlotsSpec(init);
      forall i | 0 <= i < |init| ensures init[i] == cs[i] { }
    }
  }

  /**
   * The entry's fields follow the fixed order: the `j`-th field is the candidate at a
   * strictly increasing position, and a candidate appears exactly when it is emitted.
   */
  lemma FieldsInOrder(r: Reference)
    ensures var fs, slots := Fields(r), KeptSlots(Candidates(r));
      |slots| == |fs| &&
      (forall j :: 0 <= j < |fs| ==> slots[j] < FieldCount && fs[j] == Candidate(r, slots[j]).1) &&
      (forall j, l :: 0 <= j < l < |fs| ==> slots[j] < slots[l]) &&
      (forall k :: 0 <= k < FieldCount ==> (k in slots <==> Candidate(r, k).0))
  {
    KeptSlotsSpec(Candidates(r));
  }

  /** Each candidate carries the name at its position in the output order. */
  lemma CandidateNames(r: Reference, k: nat)
    requires k < FieldCount
    ensures Candidate(r, k).1.name == FieldOrder[k]
  {
  }

  /** The abstract is emitted without `{` and `}`. */
  lemma AbstractWithoutBraces(r: Reference)
    ensures var f := Candidate(r, 13).1;
      f.name == "abstract" && '{' !in f.value && '}' !in f.value
  {
    var v := RemoveChars(r.abstractText, {'{', '}'});
    assert forall i :: 0 <= i < |v| ==> v[i] != '{' && v[i] != '}';
  }

  /** The last field line ends with its closing brace: the entry ends in `}\n}`, with no comma before it. */
  lemma BibTeXShape(r: Reference)
    ensures StartsWith(BibTeX(r), Header(r))
    ensures EndsWith(BibTeX(r), "}\n}")
  {
    TitleAlwaysFirst(r);
    var fs := Fields(r);
    JoinLinesEnd(fs);
    var b := BibTeX(r);
    assert b == Header(r) + JoinLines(fs) + "\n}";
    assert b[..|Header(r)|] == Header(r);
    var n := |JoinLines(fs)|;
    assert JoinLines(fs)[n - 1] == '}';
    assert b[|b| - 3..] == [JoinLines(fs)[n - 1]] + "\n}";
  }

  lemma {:induction false} JoinLinesEnd(fs: seq<Field>)
    requires fs != []
    ensures |JoinLines(fs)| >= 1 && JoinLines(fs)[|JoinLines(fs)| - 1] == '}'
    decreases |fs|
  {
    if |fs| > 1 {
      JoinLinesEnd(fs[1..]);
    }
  }

  // ---------------------------------------------------------------------------
  // APA citation
  // ---------------------------------------------------------------------------

  /** `copyAPA`: `authors (year). title. journal.`, the authors joined by `, `; a missing journal renders as nothing. */
  function Apa(r: Reference): (apa: string)
    ensures StartsWith(apa, Join(r.authors, ", ") + " (" + r.year + "). " + r.title + ". ")
    ensures EndsWith(apa, ". " + r.journal + ".")
    ensures |apa| == |Join(r.authors, ", ") + " (" + r.year + "). " + r.title + ". "| + |r.journal| + 1
  {
    Join(r.authors, ", ") + " (" + r.year + "). " + r.title + ". " + r.journal + "."
  }

  /** Without a journal the citation ends in `. .`. */
  lemma ApaWithoutJournal(r: Reference)
    requires r.journal == ""
    ensures EndsWith(Apa(r), ". .")
  {
    assert ". " + r.journal + "." == ". .";
  }

  /** A single author is printed as stored, with no separator. */
  lemma ApaSingleAuthor(r: Reference)
    requires |r.authors| == 1
    ensures StartsWith(Apa(r), r.authors[0] + " (")
  {
    var a := Apa(r);
    var head := r.authors[0] + " (" + r.year + "). " + r.title + ". ";
    assert a[..|head|] == head;
    assert head[..|r.authors[0] + " ("|] == r.authors[0] + " (";
  }

  // ---------------------------------------------------------------------------
  // Collection membership
  // ---------------------------------------------------------------------------

  /** `ids.filter(x => x !== id)` */
  function Remove(ids: seq<string>, id: string): seq<string>
  {
    if ids == [] then [] else (if ids[0] == id then [] else [ids[0]]) + Remove(ids[1..], id)
  }

  /** Removal drops every occurrence of `id` and keeps every other element, with its multiplicity. */
  lemma {:induction false} RemoveSpec(ids: seq<string>, id: string)
    ensures multiset(Remove(ids, id)) == multiset(ids)[id := 0]
    ensures id !in Remove(ids, id)
  {
    if ids != [] {
      RemoveSpec(ids[1..], id);
      assert ids == [ids[0]] + ids[1..];
    }
  }

  /** Removal keeps the other elements in their order: it distributes over concatenation. */
  lemma {:induction false} RemoveAppend(a: seq<string>, b: seq<string>, id: string)
    ensures Remove(a + b, id) == Remove(a, id) + Remove(b, id)
  {
    if a != [] {
      RemoveAppend(a[1..], b, id);
      assert (a + b)[0] == a[0] && (a + b)[1..] == a[1..] + b;
    } else {
      assert a + b == b;
    }
  }

  /** On one element, removal keeps it unless it is `id`. */
  lemma RemoveSingleton(x: string, id: string)
    ensures Remove([x], id) == if x == id then [] else [x]
  {
    assert [x][1..] == [];
  }

  lemma {:induction false} RemoveAbsent(ids: seq<string>, id: string)
    requires id !in ids
    ensures Remove(ids, id) == ids
  {
    if ids != [] {
      RemoveAbsent(ids[1..], id);
      assert ids == [ids[0]] + ids[1..];
    }
  }

  lemma {:induction false} RemoveSnoc(ids: seq<string>, x: string, id: string)
    ensures Remove(ids + [x], id) == Remove(ids, id) + (if x == id then [] else [x])
  {
    var tail := if x == id then [] else [x];
    if ids == [] {
      assert [] + [x] == [x];
      assert [x][1..] == [];
    } else {
      var t := ids + [x];
      var head := if ids[0] == id then [] else [ids[0]];
      assert t[0] == ids[0] && t[1..] == ids[1..] + [x];
      assert Remove(t, id) == head + Remove(ids[1..] + [x], id);
      RemoveSnoc(ids[1..], x, id);
      assert Remove(ids, id) == head + Remove(ids[1..], id);
      assert head + (Remove(ids[1..], id) + tail) == (head + Remove(ids[1..], id)) + tail;
    }
  }

  /** `toggleCollection`: the list without `id` when it holds it, else the list with `id` appended. */
  function Toggle(ids: seq<string>, id: string): (r: seq<string>)
    ensures id in r <==> id !in ids
    ensures forall x :: x != id ==> multiset(r)[x] == multiset(ids)[x]
    ensures id in ids ==> r == Remove(ids, id)
    ensures id !in ids ==> r == ids + [id]
  {
    if id in ids then RemoveSpec(ids, id); Remove(ids, id) else ids + [id]
  }

  /** Toggling twice returns a list that did not hold the collection to what it was. */
  lemma ToggleTwiceAbsent(ids: seq<string>, id: string)
    requires id !in ids
    ensures Toggle(Toggle(ids, id), id) == ids
  {
    RemoveSnoc(ids, id, id);
    RemoveAbsent(ids, id);
  }

  /** Toggling twice a list that held the collection (once) moves it to the end. */
  lemma ToggleTwicePresent(ids: seq<string>, id: string, i: nat)
    requires i < |ids| && ids[i] == id && id !in ids[..i] + ids[i + 1..]
    ensures Toggle(Toggle(ids, id), id) == ids[..i] + ids[i + 1..] + [id]
  {
    var others := ids[..i] + ids[i + 1..];
    assert ids == ids[..i] + [id] + ids[i + 1..];
    RemoveSplit(ids[..i], id, ids[i + 1..]);
  }

  lemma {:induction false} RemoveSplit(a: seq<string>, id: string, b: seq<string>)
    requires id !in a && id !in b
    ensures Remove(a + [id] + b, id) == a + b
  {
    if a == [] {
      assert [] + [id] + b == [id] + b;
      assert ([id] + b)[1..] == b;
      RemoveAbsent(b, id);
    } else {
      RemoveSplit(a[1..], id, b);
      assert (a + [id] + b)[1..] == a[1..] + [id] + b;
      assert a + b == [a[0]] + (a[1..] + b);
    }
  }

  /** The update object sent when the collection membership changes: `{ collectionIds }`. */
  function CollectionPatch(ids: seq<string>): (p: Patch)
    ensures p.collectionIds == Some(ids)
    ensures p.(collectionIds := None) == NoUpdates
  {
    NoUpdates.(collectionIds := Some(ids))
  }

  /** Applying the update changes the reference's collections and nothing else. */
  lemma CollectionPatchApplied(r: Reference, ids: seq<string>)
    ensures Apply(r, CollectionPatch(ids)) == r.(collectionIds := ids)
  {
  }

  // ---------------------------------------------------------------------------
  // Attaching a PDF
  // ---------------------------------------------------------------------------

  /** What attaching a file comes to. */
  datatype UploadOutcome =
    | NoFile                    // nothing was chosen: nothing happens
    | NotPdf                    // not a PDF: the user is asked for one
    | Failed                    // storing the file or reading its metadata threw
    | Uploaded(updates: Patch)  // the update object passed to `onUpdate`

  /** `reference.pdfId || reference.id`: the key the file is stored under. */
  function PdfKey(r: Reference): (key: string)
    ensures r.pdfId != "" ==> key == r.pdfId
    ensures r.pdfId == "" ==> key == r.id
  {
    if r.pdfId != "" then r.pdfId else r.id
  }

  /** The key is set exactly when the stored text is empty and the metadata has one, and then to the metadata's. */
  predicate FillsText(o: Option<string>, stored: string, found: string)
  {
    (o.Some? <==> stored == "" && found != "") && (o.Some? ==> o.value == found)
  }

  /** The update object of an upload: the file recorded, and only the empty fields filled from the metadata. */
  predicate UploadPatchOf(r: Reference, m: PdfMetadata, u: Patch)
  {
    u.pdfId == Some(PdfKey(r)) && u.hasPdf == Some(true) &&
    FillsText(u.title, r.title, m.title) &&
    (u.authors.Some? <==> r.authors == [] && m.authors != []) &&
    (u.authors.Some? ==> u.authors.value == m.authors) &&
    FillsText(u.year, r.year, m.year) &&
    FillsText(u.journal, r.journal, m.journal) &&
    FillsText(u.abstractText, r.abstractText, m.abstractText) &&
    FillsText(u.doi, r.doi, m.doi) &&
    (u.tags.Some? <==> m.journalRanking != "" && m.journalRanking !in r.tags) &&
    (u.tags.Some? ==> u.tags.value == r.tags + [m.journalRanking]) &&
    // no other key
    u.editors.None? && u.refType.None? && u.volume.None? && u.issue.None? && u.pages.None? &&
    u.publisher.None? && u.isbn.None? && u.issn.None? && u.url.None? && u.collectionIds.None? &&
    u.technicalReview.None?
  }

  /**
   * `handlePdfUpload`: no file does nothing; a file that is not a PDF is refused; otherwise
   * the file is stored (`saved`) and its metadata read (`metadata`, `None` when reading threw),
   * and the update object records the file and fills the empty fields.
   */
  method HandlePdfUpload(r: Reference, file: Option<FileInfo>, saved: bool, metadata: Option<PdfMetadata>)
    returns (outcome: UploadOutcome)
    ensures outcome.NoFile? <==> file.None?
    ensures outcome.NotPdf? <==> file.Some? && file.value.mimeType != PdfMimeType
    ensures outcome.Failed? <==> file.Some? && file.value.mimeType == PdfMimeType && !(saved && metadata.Some?)
    ensures outcome.Uploaded? ==> metadata.Some? && UploadPatchOf(r, metadata.value, outcome.updates)
  {
    if file.None? {
      return NoFile;
    }
    if file.value.mimeType != PdfMimeType {
      return NotPdf;
    }
    if !saved || metadata.None? {
      return Failed;
    }
    var updates := UploadPatch(r, metadata.value);
    return Uploaded(updates);
  }

  /**
   * The update object the upload builds: `{ pdfId, hasPDF: true }`, then each empty text
   * field, the authors and the tags filled from the metadata.
   */
  method UploadPatch(r: Reference, m: PdfMetadata) returns (updates: Patch)
    ensures UploadPatchOf(r, m, updates)
  {
    var pdfId := if r.pdfId != "" then r.pdfId else r.id;
    updates := NoUpdates.(pdfId := Some(pdfId), hasPdf := Some(true));
    var title := FillText(updates.title, r.title, m.title);
    updates := updates.(title := title);
    if r.authors == [] && m.authors != [] {
      updates := updates.(authors := Some(m.authors));
    }
    var year := FillText(updates.year, r.year, m.year);
    updates := updates.(year := year);
    var journal := FillText(updates.journal, r.journal, m.journal);
    updates := updates.(journal := journal);
    var abstractText := FillText(updates.abstractText, r.abstractText, m.abstractText);
    updates := updates.(abstractText := abstractText);
    var doi := FillText(updates.doi, r.doi, m.doi);
    updates := updates.(doi := doi);
    if m.journalRanking != "" && m.journalRanking !in r.tags {
      updates := updates.(tags := Some(r.tags + [m.journalRanking]));
    }
  }

  /** One `if (!reference.x && metadata.x) updates.x = metadata.x` step, on the key `x` of the update object. */
  method FillText(current: Option<string>, stored: string, found: string) returns (next: Option<string>)
    requires current.None?
    ensures FillsText(next, stored, found)
  {
    next := current;
    if stored == "" && found != "" {
      next := Some(found);
    }
  }

  /**
   * The reference after an upload, stated field by field: the file is recorded, a stored
   * field wins over the metadata, and the journal ranking is added to the tags once.
   */
  function Filled(r: Reference, m: PdfMetadata): Reference
  {
    r.(pdfId := PdfKey(r), hasPdf := true,
       title := if r.title != "" then r.title else m.title,
       authors := if r.authors != [] then r.authors else m.authors,
       year := if r.year != "" then r.year else m.year,
       journal := if r.journal != "" then r.journal else m.journal,
       abstractText := if r.abstractText != "" then r.abstractText else m.abstractText,
       doi := if r.doi != "" then r.doi else m.doi,
       tags := if m.journalRanking == "" || m.journalRanking in r.tags then r.tags else r.tags + [m.journalRanking])
  }

  /** Merging an upload's update object into the reference gives the filled reference. */
  lemma UploadPatchApplied(r: Reference, m: PdfMetadata, u: Patch)
    requires UploadPatchOf(r, m, u)
    ensures Apply(r, u) == Filled(r, m)
  {
  }

  /** An upload never overwrites a stored field, and keeps the notes, collections and review. */
  lemma FilledKeepsStored(r: Reference, m: PdfMetadata)
    ensures var f := Filled(r, m);
      (r.title != "" ==> f.title == r.title) && (r.authors != [] ==> f.authors == r.authors) &&
      (r.year != "" ==> f.year == r.year) && (r.journal != "" ==> f.journal == r.journal) &&
      (r.abstractText != "" ==> f.abstractText == r.abstractText) && (r.doi != "" ==> f.doi == r.doi) &&
      r.tags <= f.tags && f.notes == r.notes && f.collectionIds == r.collectionIds &&
      f.technicalReview == r.technicalReview && f.id == r.id
  {
  }

  /** Attaching the same file again changes nothing more. */
  lemma FilledIdempotent(r: Reference, m: PdfMetadata)
    ensures Filled(Filled(r, m), m) == Filled(r, m)
  {
    var f := Filled(r, m);
    if m.journalRanking != "" && m.journalRanking !in r.tags {
      assert m.journalRanking == f.tags[|r.tags|];
    }
  }

  // ---------------------------------------------------------------------------
  // Refreshing from the DOI
  // ---------------------------------------------------------------------------

  /** `a || b` on text: `a` unless it is empty. */
  function OrElse(a: string, b: string): (r: string)
    ensures a != "" ==> r == a
    ensures a == "" ==> r == b
  {
    if a != "" then a else b
  }

  /**
   * The update object of the "refresh from DOI" button: nothing when the lookup found
   * nothing, otherwise the fourteen bibliographic keys, each the looked-up value when it is
   * truthy and the stored one otherwise. A year of `0` is falsy.
   */
  function RefreshPatch(r: Reference, found: Option<DoiLookup.DoiMetadata>): (p: Option<Patch>)
    ensures found.None? <==> p.None?
    ensures p.Some? ==> var u := p.value;
      u.title.Some? && u.authors.Some? && u.year.Some? && u.journal.Some? && u.abstractText.Some? &&
      u.refType.Some? && u.volume.Some? && u.issue.Some? && u.pages.Some? && u.doi.Some? &&
      u.publisher.Some? && u.isbn.Some? && u.issn.Some? && u.url.Some? &&
      u.editors.None? && u.pdfId.None? && u.hasPdf.None? && u.tags.None? && u.collectionIds.None? &&
      u.technicalReview.None?
  {
    match found
    case None => None
    case Some(m) =>
      Some(NoUpdates.(
        title := Some(OrElse(m.title, r.title)),
        authors := Some(if |m.authors| > 0 then m.authors else r.authors),
        year := Some(if m.year != 0 then IntToString(m.year) else r.year),
        journal := Some(OrElse(m.journal, r.journal)),
        abstractText := Some(OrElse(m.abstractText, r.abstractText)),
        refType := Some(OrElse(m.refType, r.refType)),
        volume := Some(OrElse(m.volume, r.volume)),
        issue := Some(OrElse(m.issue, r.issue)),
        pages := Some(OrElse(m.pages, r.pages)),
        doi := Some(OrElse(m.doi, r.doi)),
        publisher := Some(OrElse(m.publisher, r.publisher)),
        isbn := Some(OrElse(m.isbn, r.isbn)),
        issn := Some(OrElse(m.issn, r.issn)),
        url := Some(OrElse(m.url, r.url))))
  }

  /** The refreshed reference. */
  function Refresh(r: Reference, m: DoiLookup.DoiMetadata): Reference
  {
    Apply(r, RefreshPatch(r, Some(m)).value)
  }

  /** A looked-up value replaces the stored one; where the lookup has none, the stored value stays. */
  lemma RefreshPrefersFound(r: Reference, m: DoiLookup.DoiMetadata)
    ensures var f := Refresh(r, m);
      (m.title != "" ==> f.title == m.title) && (m.title == "" ==> f.title == r.title) &&
      (m.authors != [] ==> f.authors == m.authors) && (m.authors == [] ==> f.authors == r.authors) &&
      (m.year != 0 ==> f.year == IntToString(m.year)) && (m.year == 0 ==> f.year == r.year) &&
      (m.journal != "" ==> f.journal == m.journal) && (m.journal == "" ==> f.journal == r.journal) &&
      (m.abstractText != "" ==> f.abstractText == m.abstractText) &&
      (m.abstractText == "" ==> f.abstractText == r.abstractText) &&
      (m.refType != "" ==> f.refType == m.refType) && (m.refType == "" ==> f.refType == r.refType) &&
      (m.volume != "" ==> f.volume == m.volume) && (m.volume == "" ==> f.volume == r.volume) &&
      (m.issue != "" ==> f.issue == m.issue) && (m.issue == "" ==> f.issue == r.issue) &&
      (m.pages != "" ==> f.pages == m.pages) && (m.pages == "" ==> f.pages == r.pages) &&
      (m.doi != "" ==> f.doi == m.doi) && (m.doi == "" ==> f.doi == r.doi) &&
      (m.publisher != "" ==> f.publisher == m.publisher) && (m.publisher == "" ==> f.publisher == r.publisher) &&
      (m.isbn != "" ==> f.isbn == m.isbn) && (m.isbn == "" ==> f.isbn == r.isbn) &&
      (m.issn != "" ==> f.issn == m.issn) && (m.issn == "" ==> f.issn == r.issn) &&
      (m.url != "" ==> f.url == m.url) && (m.url == "" ==> f.url == r.url)
  {
  }

  /** Refreshing never empties a stored field. */
  lemma RefreshNeverEmpties(r: Reference, m: DoiLookup.DoiMetadata)
    ensures var f := Refresh(r, m);
      (r.title != "" ==> f.title != "") && (r.authors != [] ==> f.authors != []) &&
      (r.year != "" ==> f.year != "") && (r.journal != "" ==> f.journal != "") &&
      (r.abstractText != "" ==> f.abstractText != "") && (r.refType != "" ==> f.refType != "") &&
      (r.volume != "" ==> f.volume != "") && (r.issue != "" ==> f.issue != "") &&
      (r.pages != "" ==> f.pages != "") && (r.doi != "" ==> f.doi != "") &&
      (r.publisher != "" ==> f.publisher != "") && (r.isbn != "" ==> f.isbn != "") &&
      (r.issn != "" ==> f.issn != "") && (r.url != "" ==> f.url != "")
  {
  }

  /** The library's own data (notes, tags, collections, the attached PDF, the review) survives a refresh. */
  lemma RefreshKeepsLibraryData(r: Reference, m: DoiLookup.DoiMetadata)
    ensures var f := Refresh(r, m);
      f.id == r.id && f.notes == r.notes && f.tags == r.tags && f.favorite == r.favorite &&
      f.collectionIds == r.collectionIds && f.pdfId == r.pdfId && f.hasPdf == r.hasPdf &&
      f.citationKey == r.citationKey && f.technicalReview == r.technicalReview && f.editors == r.editors
  {
  }

  /** Refreshing twice with the same lookup result is refreshing once. */
  lemma RefreshIdempotent(r: Reference, m: DoiLookup.DoiMetadata)
    ensures Refresh(Refresh(r, m), m) == Refresh(r, m)
  {
  }
}
