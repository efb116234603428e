/**
  Serialisation of retrieved chunks into the context string the agents read.
  `SerializeChunksWithIds` numbers the chunks `[C1]..[Cn]` and builds the
  citation map the API returns; `SerializeChunks` is the older
  `Chunk i (page=p):` layout.
 */
module Serialization {
  import opened Wrappers
  import opened Text
  import opened Citations

  /** A metadata value as a document loader stores it. */
  datatype MetaValue = NoneVal | IntVal(i: int) | StrVal(s: string)

  /** Python truthiness of a metadata value. */
  predicate Truthy(v: MetaValue) {
    match v
    case NoneVal => false
    case IntVal(i) => i != 0
    case StrVal(s) => s != []
  }

  /** How an f-string renders a metadata value. */
  function Format(v: MetaValue): string {
    match v
    case NoneVal => "None"
    case IntVal(i) => IntStr(i)
    case StrVal(s) => s
  }

  /** A retrieved chunk: its text and its metadata. */
  datatype Doc = Doc(content: string, metadata: map<string, MetaValue>)

  /** One entry of the citation map. */
  datatype Citation = Citation(page: MetaValue, source: MetaValue, snippet: string)

  type CitationMap = map<string, Citation>

  const Unknown: MetaValue := StrVal("unknown")

  /** `metadata.get(key, "unknown")`: a key that is present gives its value,
      even a `None` one. */
  function Lookup(m: map<string, MetaValue>, key: string): MetaValue {
    if key in m then m[key] else Unknown
  }

  // ---------------------------------------------------------------- with ids

  /** The identifier of the chunk at position `i`, counting from 1. */
  function ChunkId(i: nat): string {
    "C" + NatStr(i)
  }

  /** Different positions get different identifiers. */
  lemma ChunkIdInjective(i: nat, j: nat)
    requires ChunkId(i) == ChunkId(j)
    ensures i == j
  {
    assert ChunkId(i)[1..] == NatStr(i);
    assert ChunkId(j)[1..] == NatStr(j);
    NatStrInjective(i, j);
  }

  /** `page_content[:120] + "..."`. */
  function Snippet(content: string): string {
    (if |content| <= 120 then content else content[..120]) + "..."
  }

  /** The map entry of one document. */
  function EntryOf(d: Doc): Citation {
    Citation(Lookup(d.metadata, "page"), Lookup(d.metadata, "source"), Snippet(d.content))
  }

  /** The context block of the document at position `i` (from 0): its
      identifier in brackets, its page, a newline and its unstripped text. */
  function Block(i: nat, d: Doc): string {
    "[" + ChunkId(i + 1) + "] (Page " + Format(Lookup(d.metadata, "page")) + ")\n" + d.content
  }

  /** `[f(i, x) for i, x in enumerate(xs)]`. */
  function MapIndexed<T, U>(f: (nat, T) -> U, xs: seq<T>): (r: seq<U>)
    ensures |r| == |xs| && forall i :: 0 <= i < |xs| ==> r[i] == f(i, xs[i])
  {
    seq(|xs|, i requires 0 <= i < |xs| => f(i, xs[i]))
  }

  /** One more element gives one more result, computed from that element alone. */
  lemma MapIndexedSnoc<T, U>(f: (nat, T) -> U, xs: seq<T>, n: nat)
    requires n < |xs|
    ensures MapIndexed(f, xs[..n + 1]) == MapIndexed(f, xs[..n]) + [f(n, xs[n])]
  {
  }

  function Blocks(docs: seq<Doc>): seq<string> {
    MapIndexed(Block, docs)
  }

  /** The identifiers of the first `n` positions. */
  function IdsUpTo(n: nat): set<string> {
    set i | 1 <= i <= n :: ChunkId(i)
  }

  /** What the serialiser promises about its two results: the context is the
      blocks joined by blank lines, and the map has exactly the keys `C1..Cn`,
      the one of each position holding that document's entry. */
  predicate Serializes(docs: seq<Doc>, context: string, citations: CitationMap) {
    context == Join("\n\n", Blocks(docs)) &&
    citations.Keys == IdsUpTo(|docs|) &&
    forall i :: 0 <= i < |docs| ==> citations[ChunkId(i + 1)] == EntryOf(docs[i])
  }

  /** Number the documents by position and serialise them. */
  method SerializeChunksWithIds(docs: seq<Doc>) returns (context: string, citations: CitationMap)
    ensures Serializes(docs, context, citations)
    ensures |citations| == |docs|
    ensures docs == [] ==> context == "" && citations == map[]
  {
    var parts: seq<string> := [];
    citations := map[];
    for i := 0 to |docs|
      invariant parts == Blocks(docs[..i])
      invariant citations.Keys == IdsUpTo(i)
      invariant |citations| == i
      invariant forall j :: 0 <= j < i ==> citations[ChunkId(j + 1)] == EntryOf(docs[j])
    {
      var doc := docs[i];
      var chunkId := ChunkId(i + 1);
      var page := Lookup(doc.metadata, "page");
      var source := Lookup(doc.metadata, "source");
      BlocksSnoc(docs, i);
      parts := parts + ["[" + chunkId + "] (Page " + Format(page) + ")\n" + doc.content];
      MapStep(citations, docs, i);
      citations := citations[chunkId := Citation(page, source, Snippet(doc.content))];
    }
    assert docs[..|docs|] == docs;
    context := Join("\n\n", parts);
  }

  lemma BlocksSnoc(docs: seq<Doc>, n: nat)
    requires n < |docs|
    ensures Blocks(docs[..n + 1]) == Blocks(docs[..n]) + [Block(n, docs[n])]
  {
    MapIndexedSnoc(Block, docs, n);
  }

  /** Entering the next position's entry keeps the map's promise one
      position further. */
  lemma MapStep(m: CitationMap, docs: seq<Doc>, i: nat)
    requires i < |docs| && m.Keys == IdsUpTo(i) && |m| == i
    requires forall j :: 0 <= j < i ==> m[ChunkId(j + 1)] == EntryOf(docs[j])
    ensures var m' := m[ChunkId(i + 1) := EntryOf(docs[i])];
            m'.Keys == IdsUpTo(i + 1) && |m'| == i + 1 &&
            forall j :: 0 <= j < i + 1 ==> m'[ChunkId(j + 1)] == EntryOf(docs[j])
  {
    NextIdIsFresh(i);
    var m' := m[ChunkId(i + 1) := EntryOf(docs[i])];
    forall j | 0 <= j < i + 1 ensures m'[ChunkId(j + 1)] == EntryOf(docs[j]) {
      if j < i {
        assert ChunkId(j + 1) in IdsUpTo(i);
      }
    }
  }

  /** The identifier of the next position is not among the earlier ones. */
  lemma NextIdIsFresh(n: nat)
    ensures ChunkId(n + 1) !in IdsUpTo(n)
    ensures IdsUpTo(n + 1) == IdsUpTo(n) + {ChunkId(n + 1)}
  {
    if ChunkId(n + 1) in IdsUpTo(n) {
      var j :| 1 <= j <= n && ChunkId(j) == ChunkId(n + 1);
      ChunkIdInjective(j, n + 1);
    }
  }

  /** A snippet is the first `min(120, len)` characters of the text followed
      by the three dots, so it is at most 123 characters long. */
  lemma SnippetBound(content: string)
    ensures Snippet(content) == content[..if |content| < 120 then |content| else 120] + "..."
    ensures |Snippet(content)| <= 123
  {
    if |content| <= 120 {
      assert content[..|content|] == content;
    }
  }

  /** A document without `page` metadata gets `"unknown"` for its page, and one
      without `source` metadata gets `"unknown"` for its source, each on its
      own and never as an error. */
  lemma MissingMetadataIsUnknown(d: Doc)
    ensures "page" !in d.metadata ==> EntryOf(d).page == Unknown && Format(EntryOf(d).page) == "unknown"
    ensures "source" !in d.metadata ==> EntryOf(d).source == Unknown
    ensures "page" in d.metadata ==> EntryOf(d).page == d.metadata["page"]
    ensures "source" in d.metadata ==> EntryOf(d).source == d.metadata["source"]
  {
  }

  /** The text of a joined list opens with its first part. */
  lemma JoinStartsWithFirst(sep: string, parts: seq<string>)
    requires parts != []
    ensures |parts[0]| <= |Join(sep, parts)| && Join(sep, parts)[..|parts[0]|] == parts[0]
  {
  }

  /** Each map key names a block of the context: the context cites the
      identifier of every position. */
  lemma ContextCitesEveryKey(docs: seq<Doc>, i: nat)
    requires i < |docs|
    ensures Cites(Join("\n\n", Blocks(docs)), NatStr(i + 1))
  {
    var b := Block(i, docs[i]);
    var t := Token(NatStr(i + 1));
    assert b[..|t|] == t;
    SliceIsSubstring(b, 0, |t|);
    PartOfJoin("\n\n", Blocks(docs), i);
    SubstringTransitive(t, b, Join("\n\n", Blocks(docs)));
  }

  /** The context of a non-empty list opens with `[C1]`, so the identifier the
      enforcement passes take from it is `"1"`. */
  lemma FirstIdOfContext(docs: seq<Doc>)
    requires docs != []
    ensures FirstId(Join("\n\n", Blocks(docs))) == Some("1")
  {
    var c := Join("\n\n", Blocks(docs));
    ContextOpensWithFirstId(docs);
    OpeningTokenOne(c);
    FirstIdAtStart(c);
  }

  /** A text that opens with `[C1]` has the match for `1` at index 0. */
  lemma OpeningTokenOne(c: string)
    requires |c| >= 4 && c[..4] == "[C1]"
    ensures TokenAt(c, 0) && IdAt(c, 0) == "1"
  {
    assert c[0] == '[' && c[1] == 'C' && c[2] == '1' && c[3] == ']' by {
      assert c[..4][0] == c[0] && c[..4][1] == c[1] && c[..4][2] == c[2] && c[..4][3] == c[3];
    }
    assert DigitsEnd(c, 3) == 3;
    assert DigitsEnd(c, 2) == 3;
  }

  lemma ContextOpensWithFirstId(docs: seq<Doc>)
    requires docs != []
    ensures |Join("\n\n", Blocks(docs))| >= 4 && Join("\n\n", Blocks(docs))[..4] == "[C1]"
  {
    var b := Block(0, docs[0]);
    JoinStartsWithFirst("\n\n", Blocks(docs));
    assert Blocks(docs)[0] == b;
    assert NatStr(1) == "1";
    assert ChunkId(1) == "C1";
    assert b[..4] == "[C1]";
  }

  /** Text inside a document can cite an identifier the map does not have:
      content is not escaped, so a chunk that itself reads `[C7]` puts `C7`
      in the context of a one-document list whose only key is `C1`. */
  lemma ContentCanForgeToken()
    ensures var docs := [Doc("[C7]", map[])];
            Cites(Join("\n\n", Blocks(docs)), "7") && ChunkId(7) !in IdsUpTo(|docs|)
  {
    var docs := [Doc("[C7]", map[])];
    var b := Block(0, docs[0]);
    assert Blocks(docs) == [b];
    assert Join("\n\n", Blocks(docs)) == b;
    assert DigitChar(7) == '7';
    assert Token("7") == "[C7]";
    assert b[|b| - 4..|b|] == Token("7");
    SliceIsSubstring(b, |b| - 4, |b|);
    assert IsId("7");
    if ChunkId(7) in IdsUpTo(1) {
      var j :| 1 <= j <= 1 && ChunkId(j) == ChunkId(7);
      ChunkIdInjective(j, 7);
    }
  }

  // ---------------------------------------------------------------- plain chunks

  /** `metadata.get("page") or metadata.get("page_number", "unknown")`: a
      missing or falsy page (0, `None`, the empty string) falls back to
      `page_number`, and only a missing `page_number` to `"unknown"`. */
  function PageOf(m: map<string, MetaValue>): MetaValue {
    if "page" in m && Truthy(m["page"]) then m["page"] else Lookup(m, "page_number")
  }

  /** The block of the chunk at position `i` (from 0) in the older layout. */
  function ChunkBlock(i: nat, d: Doc): string {
    "Chunk " + NatStr(i + 1) + " (page=" + Format(PageOf(d.metadata)) + "):" + "\n" + Strip(d.content)
  }

  function ChunkBlocks(docs: seq<Doc>): seq<string> {
    MapIndexed(ChunkBlock, docs)
  }

  /** Serialise the documents in the `Chunk i (page=p):` layout. */
  method SerializeChunks(docs: seq<Doc>) returns (r: string)
    ensures r == Join("\n\n", ChunkBlocks(docs))
    ensures docs == [] ==> r == ""
  {
    var contextParts: seq<string> := [];
    for i := 0 to |docs|
      invariant contextParts == ChunkBlocks(docs[..i])
    {
      var idx := i + 1;
      var doc := docs[i];
      var pageNum := PageOf(doc.metadata);
      var chunkHeader := "Chunk " + NatStr(idx) + " (page=" + Format(pageNum) + "):";
      var chunkContent := Strip(doc.content);
      ChunkBlocksSnoc(docs, i);
      contextParts := contextParts + [chunkHeader + "\n" + chunkContent];
    }
    assert docs[..|docs|] == docs;
    r := Join("\n\n", contextParts);
  }

  lemma ChunkBlocksSnoc(docs: seq<Doc>, n: nat)
    requires n < |docs|
    ensures ChunkBlocks(docs[..n + 1]) == ChunkBlocks(docs[..n]) + [ChunkBlock(n, docs[n])]
  {
    MapIndexedSnoc(ChunkBlock, docs, n);
  }

  /** The page shown: a truthy `page` wins; otherwise `page_number` if there is
      one, whatever its value; otherwise `"unknown"`. */
  lemma PageFallback(m: map<string, MetaValue>)
    ensures "page" in m && Truthy(m["page"]) ==> PageOf(m) == m["page"]
    ensures !("page" in m && Truthy(m["page"])) && "page_number" in m ==> PageOf(m) == m["page_number"]
    ensures !("page" in m && Truthy(m["page"])) && "page_number" !in m ==> Format(PageOf(m)) == "unknown"
  {
  }

  /** Page 0 is falsy: a chunk on page 0 shows its `page_number` instead. */
  lemma PageZeroFallsBack(n: int)
    ensures PageOf(map["page" := IntVal(0), "page_number" := IntVal(n)]) == IntVal(n)
  {
    var m := map["page" := IntVal(0), "page_number" := IntVal(n)];
    assert !Truthy(m["page"]);
  }

  /** The chunks of the older layout are numbered from 1 by position: the
      block at position `i` opens with `Chunk <i+1> (page=`, and no two
      positions share a number. */
  lemma ChunkNumbering(docs: seq<Doc>, i: nat, j: nat)
    requires i < |docs| && j < |docs| && i != j
    ensures IsPrefix("Chunk " + NatStr(i + 1) + " (page=", ChunkBlocks(docs)[i])
    ensures NatStr(i + 1) != NatStr(j + 1)
  {
    var d := docs[i];
    var lead := "Chunk " + NatStr(i + 1) + " (page=";
    var x := lead + Format(PageOf(d.metadata));
    PrefixOfAppend(lead, lead, Format(PageOf(d.metadata)));
    PrefixOfAppend(lead, x, "):");
    PrefixOfAppend(lead, x + "):", "\n");
    PrefixOfAppend(lead, x + "):" + "\n", Strip(d.content));
    if NatStr(i + 1) == NatStr(j + 1) {
      NatStrInjective(i + 1, j + 1);
    }
  }

  predicate IsPrefix(p: string, s: string) {
    |p| <= |s| && s[..|p|] == p
  }

  lemma PrefixOfAppend(p: string, x: string, y: string)
    requires p == x || IsPrefix(p, x)
    ensures IsPrefix(p, x + y)
  {
    assert (x + y)[..|x|] == x;
    assert (x + y)[..|p|] == x[..|p|];
  }
}
