/** Snapshots: the image a save writes, what a load makes of a file, be it whole or cut off, and what the
    two together restore. */
module Rdb {
  import opened Widths
  import opened Bytes
  import opened Slices
  import opened Walks
  import opened DynamicGraphs
  import opened KvEngines
  import opened GraphEngines

  const MAGIC: nat := 0x4641_5354_4752_FF00
  const VERSION: nat := 1
  const EOF_MARKER: nat := 0xFFFF_FFFF_FFFF_FFFF

  /** How a weight is laid out in a file. */
  datatype Floats = Floats(enc: real -> string, dec: string -> real)

  // What is written

  function WriteEntry(e: KvEntry): string {
    WriteString(e.key) + (WriteString(e.val) + Le(Unsigned(e.deadline, TWO_64), 8))
  }

  function WriteNode(r: NodeRow): string {
    Le(Unsigned(r.id, TWO_32), 4) + (WriteString(r.labelText) + WriteString(r.props))
  }

  function WriteEdge(fl: Floats): EdgeRow -> string {
    (r: EdgeRow) =>
      Le(Unsigned(r.from, TWO_32), 4) + (Le(Unsigned(r.to, TWO_32), 4) + (WriteString(r.rel) + fl.enc(r.weight)))
  }

  function Sections(fl: Floats, entries: seq<KvEntry>, nodes: seq<NodeRow>, edges: seq<EdgeRow>): string {
    WriteCounted(WriteEntry, entries) + (WriteCounted(WriteNode, nodes) + WriteCounted(WriteEdge(fl), edges))
  }

  function Image(fl: Floats, entries: seq<KvEntry>, nodes: seq<NodeRow>, edges: seq<EdgeRow>): string {
    Le(MAGIC, 8) + (Le(VERSION, 4) + (Sections(fl, entries, nodes, edges) + Le(EOF_MARKER, 8)))
  }

  const ONE := "\U{01}\U{00}\U{00}\U{00}"
  const ONE_LONG := ONE + "\U{00}\U{00}\U{00}\U{00}"

  /** An image of one entry, one node and one edge, byte by byte. */
  lemma ImageByByte(fl: Floats, weight: real)
    ensures Image(fl, [KvEntry("k", "v", 5)], [NodeRow(1, "A", "p")], [EdgeRow(1, 2, "r", weight)]) ==
              "\U{00}\U{FF}RGTSAF" + (ONE
              + (((ONE_LONG + (ONE + "k" + (ONE + "v" + "\U{05}\U{00}\U{00}\U{00}\U{00}\U{00}\U{00}\U{00}")))
              + ((ONE_LONG + (ONE + (ONE + "A" + (ONE + "p"))))
              + (ONE_LONG + (ONE + ("\U{02}\U{00}\U{00}\U{00}" + (ONE + "r" + fl.enc(weight)))))))
              + "\U{FF}\U{FF}\U{FF}\U{FF}\U{FF}\U{FF}\U{FF}\U{FF}"))
  {
    hide Le;
    SmallBytes();
    MagicBytes();
    MarkerBytes();
    OnlyOne(WriteEntry, KvEntry("k", "v", 5));
    OnlyOne(WriteNode, NodeRow(1, "A", "p"));
    OnlyOne(WriteEdge(fl), EdgeRow(1, 2, "r", weight));
  }

  lemma OnlyOne<T>(write: T -> string, v: T)
    ensures WriteCounted(write, [v]) == ONE_LONG + write(v)
  {
    hide Le;
    SmallBytes();
    assert [v][1..] == [] && WriteAll(write, [v]) == write(v) + "";
  }

  lemma SmallBytes()
    ensures Le(1, 4) == ONE && Le(1, 8) == ONE_LONG
    ensures Le(2, 4) == "\U{02}\U{00}\U{00}\U{00}"
    ensures Le(5, 8) == "\U{05}\U{00}\U{00}\U{00}\U{00}\U{00}\U{00}\U{00}"
  {
    LeOfByte(1, 4);
    LeOfByte(1, 8);
    LeOfByte(2, 4);
    LeOfByte(5, 8);
  }

  lemma MarkerBytes()
    ensures EOF_MARKER < Power(8) && Le(EOF_MARKER, 8) == "\U{FF}\U{FF}\U{FF}\U{FF}\U{FF}\U{FF}\U{FF}\U{FF}"
  {
    hide Le, Power;
    PowerEight();
    LeOfByte(0xFF, 1);
    LeOn(0xFF, 0xFF, 1);
    LeOn(0xFF, 0xFFFF, 2);
    LeOn(0xFF, 0xFFFFFF, 3);
    LeOn(0xFF, 0xFFFFFFFF, 4);
    LeOn(0xFF, 0xFFFFFFFFFF, 5);
    LeOn(0xFF, 0xFFFFFFFFFFFF, 6);
    LeOn(0xFF, 0xFFFFFFFFFFFFFF, 7);
  }

  // What is read

  function EntryOf(x: (string, (string, nat))): KvEntry {
    KvEntry(x.0, x.1.0, Signed(x.1.1, TWO_64))
  }

  function ReadEntry(): Reader<KvEntry> {
    Map(Then(ReadString, Then(ReadString, ReadNumber(8))), EntryOf)
  }

  function NodeOf(x: (nat, (string, string))): NodeRow {
    NodeRow(Signed(x.0, TWO_32), x.1.0, x.1.1)
  }

  function ReadNode(): Reader<NodeRow> {
    Map(Then(ReadNumber(4), Then(ReadString, ReadString)), NodeOf)
  }

  function EdgeOf(fl: Floats): ((nat, (nat, (string, string)))) -> EdgeRow {
    (x: (nat, (nat, (string, string)))) =>
      EdgeRow(Signed(x.0, TWO_32), Signed(x.1.0, TWO_32), x.1.1.0, fl.dec(x.1.1.1))
  }

  /** The weight is 1 before its bytes are read. */
  function ReadEdge(fl: Floats): Reader<EdgeRow> {
    Map(Then(ReadNumber(4), Then(ReadNumber(4), Then(ReadString, ReadRaw(fl.enc(1.0))))), EdgeOf(fl))
  }

  function ReadSections(fl: Floats): Reader<(seq<KvEntry>, (seq<NodeRow>, seq<EdgeRow>))> {
    Then(ReadCounted(ReadEntry()), Then(ReadCounted(ReadNode()), ReadCounted(ReadEdge(fl))))
  }

  /** Nothing is looked at without the right header; otherwise all that could be read counts, and the verdict
      hangs on the marker at the end. */
  datatype Loading = NotAnImage | Loading(entries: seq<KvEntry>, nodes: seq<NodeRow>, edges: seq<EdgeRow>, ok: bool)

  predicate HasHeader(content: string) {
    && |content| >= 12
    && ReadNumber(8)(content, 0).value == MAGIC && ReadNumber(4)(content, 8).value == VERSION
  }

  function Contents(fl: Floats, content: string): Loading {
    if !HasHeader(content) then NotAnImage
    else
      var rows := ReadSections(fl)(content, 12);
      Loading(rows.value.0, rows.value.1.0, rows.value.1.1, ReadNumber(8)(content, rows.pos).value == EOF_MARKER)
  }

  predicate Accepts(fl: Floats, content: string) {
    Contents(fl, content).Loading? && Contents(fl, content).ok
  }

  /** The header, byte by byte. */
  lemma HeaderIs(content: string)
    requires forall i :: 0 <= i < |content| ==> content[i] as int < 256
    ensures HasHeader(content) <==>
              |content| >= 12 && content[..8] == "\U{00}\U{FF}RGTSAF" && content[8..12] == "\U{01}\U{00}\U{00}\U{00}"
  {
    hide ReadNumber, Le, Power;
    if |content| >= 12 {
      MagicBytes();
      VersionBytes();
      NumberIs(content, 0, 8, MAGIC);
      NumberIs(content, 8, 4, VERSION);
      assert content[0..8] == content[..8];
    }
  }

  /** A number is read exactly where its bytes stand. */
  lemma NumberIs(content: string, pos: nat, k: nat, n: nat)
    requires forall i :: 0 <= i < |content| ==> content[i] as int < 256
    requires pos + k <= |content| && n < Power(k)
    ensures ReadNumber(k)(content, pos).value == n <==> content[pos..pos + k] == Le(n, k)
  {
    NumberReadAt(content, pos, k);
    hide ReadNumber, Le, FromLe, Power;
    LeIsRead(n, k);
    ReadIsWritten(content[pos..pos + k]);
  }

  lemma NumberReadAt(content: string, pos: nat, k: nat)
    requires pos + k <= |content|
    ensures ReadNumber(k)(content, pos).value == FromLe(content[pos..pos + k])
  {
    hide Le, FromLe;
    LeLength(0, k);
  }

  lemma MagicBytes()
    ensures MAGIC < Power(8) && Le(MAGIC, 8) == "\U{00}\U{FF}RGTSAF"
  {
    hide Le, Power;
    PowerEight();
    LeOfByte(0x46, 1);
    LeOn(0x41, 0x46, 1);
    LeOn(0x53, 0x4641, 2);
    LeOn(0x54, 0x464153, 3);
    LeOn(0x47, 0x46415354, 4);
    LeOn(0x52, 0x4641535447, 5);
    LeOn(0xFF, 0x464153544752, 6);
    LeOn(0x00, 0x464153544752FF, 7);
  }

  lemma VersionBytes()
    ensures VERSION < Power(4) && Le(VERSION, 4) == "\U{01}\U{00}\U{00}\U{00}"
  {
    PowerFour();
    LeOfByte(1, 4);
  }

  // Round trip

  /** What the widths of the format can hold. */
  predicate EntryFits(e: KvEntry) {
    |e.key| < TWO_32 && |e.val| < TWO_32 && IsSigned(e.deadline, TWO_64)
  }

  predicate NodeFits(r: NodeRow) {
    |r.labelText| < TWO_32 && |r.props| < TWO_32 && IsSigned(r.id, TWO_32)
  }

  predicate EdgeFits(fl: Floats, r: EdgeRow) {
    && |r.rel| < TWO_32 && IsSigned(r.from, TWO_32) && IsSigned(r.to, TWO_32)
    && |fl.enc(r.weight)| == |fl.enc(1.0)| && fl.dec(fl.enc(r.weight)) == r.weight
  }

  predicate Fits(fl: Floats, entries: seq<KvEntry>, nodes: seq<NodeRow>, edges: seq<EdgeRow>) {
    && |entries| < TWO_64 && |nodes| < TWO_64 && |edges| < TWO_64
    && (forall i :: 0 <= i < |entries| ==> EntryFits(entries[i]))
    && (forall i :: 0 <= i < |nodes| ==> NodeFits(nodes[i]))
    && (forall i :: 0 <= i < |edges| ==> EdgeFits(fl, edges[i]))
  }

  lemma EntryReadsBack(e: KvEntry)
    requires EntryFits(e)
    ensures ReadsBack(ReadEntry(), WriteEntry(e), e)
  {
    var n := Unsigned(e.deadline, TWO_64);
    PowerEight();
    SignedInverts(e.deadline, TWO_64);
    StringReadsBack(e.key);
    StringReadsBack(e.val);
    NumberReadsBack(n, 8);
    ThenReadsBack(ReadString, ReadNumber(8), WriteString(e.val), e.val, Le(n, 8), n);
    ThenReadsBack(ReadString, Then(ReadString, ReadNumber(8)), WriteString(e.key), e.key,
                  WriteString(e.val) + Le(n, 8), (e.val, n));
    MapReadsBack(Then(ReadString, Then(ReadString, ReadNumber(8))), EntryOf, WriteEntry(e), (e.key, (e.val, n)));
  }

  lemma NodeReadsBack(r: NodeRow)
    requires NodeFits(r)
    ensures ReadsBack(ReadNode(), WriteNode(r), r)
  {
    var n := Unsigned(r.id, TWO_32);
    PowerFour();
    SignedInverts(r.id, TWO_32);
    StringReadsBack(r.labelText);
    StringReadsBack(r.props);
    NumberReadsBack(n, 4);
    ThenReadsBack(ReadString, ReadString, WriteString(r.labelText), r.labelText, WriteString(r.props), r.props);
    ThenReadsBack(ReadNumber(4), Then(ReadString, ReadString), Le(n, 4), n,
                  WriteString(r.labelText) + WriteString(r.props), (r.labelText, r.props));
    MapReadsBack(Then(ReadNumber(4), Then(ReadString, ReadString)), NodeOf, WriteNode(r), (n, (r.labelText, r.props)));
  }

  lemma EdgeReadsBack(fl: Floats, r: EdgeRow)
    requires EdgeFits(fl, r)
    ensures ReadsBack(ReadEdge(fl), WriteEdge(fl)(r), r)
  {
    var m, n, w := Unsigned(r.from, TWO_32), Unsigned(r.to, TWO_32), fl.enc(r.weight);
    var raw := ReadRaw(fl.enc(1.0));
    PowerFour();
    SignedInverts(r.from, TWO_32);
    SignedInverts(r.to, TWO_32);
    StringReadsBack(r.rel);
    NumberReadsBack(m, 4);
    NumberReadsBack(n, 4);
    RawReadsBack(fl.enc(1.0), w);
    ThenReadsBack(ReadString, raw, WriteString(r.rel), r.rel, w, w);
    ThenReadsBack(ReadNumber(4), Then(ReadString, raw), Le(n, 4), n, WriteString(r.rel) + w, (r.rel, w));
    ThenReadsBack(ReadNumber(4), Then(ReadNumber(4), Then(ReadString, raw)), Le(m, 4), m,
                  Le(n, 4) + (WriteString(r.rel) + w), (n, (r.rel, w)));
    MapReadsBack(Then(ReadNumber(4), Then(ReadNumber(4), Then(ReadString, raw))), EdgeOf(fl), WriteEdge(fl)(r),
                 (m, (n, (r.rel, w))));
  }

  lemma SectionsReadBack(fl: Floats, entries: seq<KvEntry>, nodes: seq<NodeRow>, edges: seq<EdgeRow>)
    requires Fits(fl, entries, nodes, edges)
    ensures ReadsBack(ReadSections(fl), Sections(fl, entries, nodes, edges), (entries, (nodes, edges)))
  {
    hide ReadsBack, EntryFits, NodeFits, EdgeFits, WriteCounted, ReadCounted, Then, ReadEntry, ReadNode, ReadEdge;
    forall i | 0 <= i < |entries|
      ensures ReadsBack(ReadEntry(), WriteEntry(entries[i]), entries[i])
    {
      EntryReadsBack(entries[i]);
    }
    forall i | 0 <= i < |nodes|
      ensures ReadsBack(ReadNode(), WriteNode(nodes[i]), nodes[i])
    {
      NodeReadsBack(nodes[i]);
    }
    forall i | 0 <= i < |edges|
      ensures ReadsBack(ReadEdge(fl), WriteEdge(fl)(edges[i]), edges[i])
    {
      EdgeReadsBack(fl, edges[i]);
    }
    CountedReadsBack(ReadEntry(), WriteEntry, entries);
    CountedReadsBack(ReadNode(), WriteNode, nodes);
    CountedReadsBack(ReadEdge(fl), WriteEdge(fl), edges);
    ThenReadsBack(ReadCounted(ReadNode()), ReadCounted(ReadEdge(fl)), WriteCounted(WriteNode, nodes), nodes,
                  WriteCounted(WriteEdge(fl), edges), edges);
    ThenReadsBack(ReadCounted(ReadEntry()), Then(ReadCounted(ReadNode()), ReadCounted(ReadEdge(fl))),
                  WriteCounted(WriteEntry, entries), entries,
                  WriteCounted(WriteNode, nodes) + WriteCounted(WriteEdge(fl), edges), (nodes, edges));
  }

  /** The layout of an image: header, sections, marker. */
  lemma Layout(fl: Floats, entries: seq<KvEntry>, nodes: seq<NodeRow>, edges: seq<EdgeRow>)
    ensures var image, body := Image(fl, entries, nodes, edges), Sections(fl, entries, nodes, edges);
      && |image| == 20 + |body|
      && Holds(image, 0, Le(MAGIC, 8)) && Holds(image, 8, Le(VERSION, 4))
      && Holds(image, 12, body) && Holds(image, 12 + |body|, Le(EOF_MARKER, 8))
  {
    hide Sections, Le;
    var image, body := Image(fl, entries, nodes, edges), Sections(fl, entries, nodes, edges);
    LeLength(MAGIC, 8);
    LeLength(VERSION, 4);
    LeLength(EOF_MARKER, 8);
    assert Holds(image, 0, image);
    HoldsParts(image, 0, Le(MAGIC, 8), Le(VERSION, 4) + (body + Le(EOF_MARKER, 8)));
    HoldsParts(image, 8, Le(VERSION, 4), body + Le(EOF_MARKER, 8));
    HoldsParts(image, 12, body, Le(EOF_MARKER, 8));
  }

  lemma NumberAt(content: string, pos: nat, n: nat, k: nat)
    requires n < Power(k) && Holds(content, pos, Le(n, k))
    ensures ReadNumber(k)(content, pos) == Took(n, pos + k)
  {
    LeLength(n, k);
    NumberReadsBack(n, k);
    assert Reads(ReadNumber(k), content, pos, Le(n, k), n);
  }

  /** A saved image is read back whole. */
  lemma ImageIsRead(fl: Floats, entries: seq<KvEntry>, nodes: seq<NodeRow>, edges: seq<EdgeRow>)
    requires Fits(fl, entries, nodes, edges)
    ensures Contents(fl, Image(fl, entries, nodes, edges)) == Loading(entries, nodes, edges, true)
    ensures ReadSections(fl)(Image(fl, entries, nodes, edges), 12).pos == |Image(fl, entries, nodes, edges)| - 8
  {
    hide Fits, Image, Sections, ReadSections, ReadNumber, Le;
    var image, body := Image(fl, entries, nodes, edges), Sections(fl, entries, nodes, edges);
    Layout(fl, entries, nodes, edges);
    PowerFour();
    PowerEight();
    NumberAt(image, 0, MAGIC, 8);
    NumberAt(image, 8, VERSION, 4);
    SectionsReadBack(fl, entries, nodes, edges);
    assert Reads(ReadSections(fl), image, 12, body, (entries, (nodes, edges)));
    NumberAt(image, 12 + |body|, EOF_MARKER, 8);
  }

  lemma SectionsCut(fl: Floats)
    ensures Cuts(ReadSections(fl))
  {
    hide Cuts;
    StringCuts();
    NumberCuts(4);
    NumberCuts(8);
    RawCuts(fl.enc(1.0));
    ThenCuts(ReadString, ReadNumber(8));
    ThenCuts(ReadString, Then(ReadString, ReadNumber(8)));
    MapCuts(Then(ReadString, Then(ReadString, ReadNumber(8))), EntryOf);
    ThenCuts(ReadString, ReadString);
    ThenCuts(ReadNumber(4), Then(ReadString, ReadString));
    MapCuts(Then(ReadNumber(4), Then(ReadString, ReadString)), NodeOf);
    ThenCuts(ReadString, ReadRaw(fl.enc(1.0)));
    ThenCuts(ReadNumber(4), Then(ReadString, ReadRaw(fl.enc(1.0))));
    ThenCuts(ReadNumber(4), Then(ReadNumber(4), Then(ReadString, ReadRaw(fl.enc(1.0)))));
    MapCuts(Then(ReadNumber(4), Then(ReadNumber(4), Then(ReadString, ReadRaw(fl.enc(1.0))))), EdgeOf(fl));
    CountedCuts(ReadEntry());
    CountedCuts(ReadNode());
    CountedCuts(ReadEdge(fl));
    ThenCuts(ReadCounted(ReadNode()), ReadCounted(ReadEdge(fl)));
    ThenCuts(ReadCounted(ReadEntry()), Then(ReadCounted(ReadNode()), ReadCounted(ReadEdge(fl))));
  }

  /** No image that was cut off is accepted, wherever the cut. */
  lemma PrefixIsRejected(fl: Floats, entries: seq<KvEntry>, nodes: seq<NodeRow>, edges: seq<EdgeRow>, n: nat)
    requires Fits(fl, entries, nodes, edges) && n < |Image(fl, entries, nodes, edges)|
    ensures !Accepts(fl, Image(fl, entries, nodes, edges)[..n])
  {
    var image := Image(fl, entries, nodes, edges);
    hide Fits, Image, Sections, ReadSections, ReadNumber, Le;
    ImageIsRead(fl, entries, nodes, edges);
    if n >= 12 {
      SectionsCut(fl);
      assert CutAt(ReadSections(fl), image, n, 12);
      ShortIsNotMarker(image[..n], ReadSections(fl)(image[..n], 12).pos);
    }
  }

  // Reading, step by step

  /** An open file. A short read leaves it at its end and fills what it can. */
  class File {
    const content: string
    var pos: nat

    constructor (content: string)
      ensures this.content == content && pos == 0
    {
      this.content, pos := content, 0;
    }

    method Read(buffer: string) returns (ok: bool, filled: string)
      modifies this
      ensures Took(filled, pos) == ReadRaw(buffer)(content, old(pos))
      ensures ok <==> old(pos) + |buffer| <= |content|
    {
      filled := Fill(content, pos, buffer);
      ok := pos + |buffer| <= |content|;
      pos := After(content, pos, |buffer|);
    }

    method ReadNumber(k: nat) returns (ok: bool, n: nat)
      modifies this
      ensures Took(n, pos) == Bytes.ReadNumber(k)(content, old(pos))
      ensures ok <==> old(pos) + k <= |content|
      ensures ok ==> pos == old(pos) + k
    {
      var bytes;
      LeLength(0, k);
      ok, bytes := Read(Le(0, k));
      n := FromLe(bytes);
    }

    method ReadStr() returns (s: string)
      modifies this
      ensures Took(s, pos) == ReadString(content, old(pos))
    {
      var ok, len := ReadNumber(4);
      if !ok {
        return "";
      }
      ok, s := Read(Zeros(len));
    }

    method NextEntry() returns (e: KvEntry)
      modifies this
      ensures Took(e, pos) == ReadEntry()(content, old(pos))
    {
      var key := ReadStr();
      var val := ReadStr();
      var ok, exp := ReadNumber(8);
      ghost var s1 := ReadString(content, old(pos));
      assert Then(ReadString, Bytes.ReadNumber(8))(content, s1.pos) == Took((val, exp), pos);
      assert Then(ReadString, Then(ReadString, Bytes.ReadNumber(8)))(content, old(pos)) == Took((key, (val, exp)), pos);
      e := KvEntry(key, val, Signed(exp, TWO_64));
    }

    method ReadEntries() returns (entries: seq<KvEntry>)
      modifies this
      ensures Took(entries, pos) == ReadCounted(ReadEntry())(content, old(pos))
    {
      hide ReadEntry, ReadAll, Bytes.ReadNumber;
      var ok, count := ReadNumber(8);
      entries := [];
      ghost var all := ReadAll(ReadEntry(), content, pos, count);
      NonePrepended(all);
      for i := 0 to count
        invariant all == Prepended(entries, ReadAll(ReadEntry(), content, pos, count - i))
      {
        AllReadOn(ReadEntry(), content, pos, count - i, entries);
        var e := NextEntry();
        entries := entries + [e];
      }
      NoneToRead(ReadEntry(), content, pos, entries);
    }

    method NextNode() returns (r: NodeRow)
      modifies this
      ensures Took(r, pos) == ReadNode()(content, old(pos))
    {
      var ok, id := ReadNumber(4);
      var labelText := ReadStr();
      var props := ReadStr();
      ghost var n1 := Bytes.ReadNumber(4)(content, old(pos));
      assert Then(ReadString, ReadString)(content, n1.pos) == Took((labelText, props), pos);
      assert Then(Bytes.ReadNumber(4), Then(ReadString, ReadString))(content, old(pos)) == Took((id, (labelText, props)), pos);
      r := NodeRow(Signed(id, TWO_32), labelText, props);
    }

    method ReadNodes() returns (nodes: seq<NodeRow>)
      modifies this
      ensures Took(nodes, pos) == ReadCounted(ReadNode())(content, old(pos))
    {
      hide ReadNode, ReadAll, Bytes.ReadNumber;
      var ok, count := ReadNumber(8);
      nodes := [];
      ghost var all := ReadAll(ReadNode(), content, pos, count);
      NonePrepended(all);
      for i := 0 to count
        invariant all == Prepended(nodes, ReadAll(ReadNode(), content, pos, count - i))
      {
        AllReadOn(ReadNode(), content, pos, count - i, nodes);
        var r := NextNode();
        nodes := nodes + [r];
      }
      NoneToRead(ReadNode(), content, pos, nodes);
    }

    method NextEdge(fl: Floats) returns (r: EdgeRow)
      modifies this
      ensures Took(r, pos) == ReadEdge(fl)(content, old(pos))
    {
      var ok, from := ReadNumber(4);
      var to, weight;
      ok, to := ReadNumber(4);
      var rel := ReadStr();
      ok, weight := Read(fl.enc(1.0));
      r := EdgeRow(Signed(from, TWO_32), Signed(to, TWO_32), rel, fl.dec(weight));
    }

    method ReadEdges(fl: Floats) returns (edges: seq<EdgeRow>)
      modifies this
      ensures Took(edges, pos) == ReadCounted(ReadEdge(fl))(content, old(pos))
    {
      hide ReadEdge, ReadAll, Bytes.ReadNumber;
      var ok, count := ReadNumber(8);
      edges := [];
      ghost var all := ReadAll(ReadEdge(fl), content, pos, count);
      NonePrepended(all);
      for i := 0 to count
        invariant all == Prepended(edges, ReadAll(ReadEdge(fl), content, pos, count - i))
      {
        AllReadOn(ReadEdge(fl), content, pos, count - i, edges);
        var r := NextEdge(fl);
        edges := edges + [r];
      }
      NoneToRead(ReadEdge(fl), content, pos, edges);
    }
  }

  ghost function Prepended<T>(vs: seq<T>, rest: Took<seq<T>>): Took<seq<T>> {
    Took(vs + rest.value, rest.pos)
  }

  lemma NonePrepended<T>(t: Took<seq<T>>)
    ensures Prepended([], t) == t
  {
    assert [] + t.value == t.value;
  }

  lemma NoneToRead<T>(r: Reader<T>, content: string, pos: nat, sofar: seq<T>)
    ensures Prepended(sofar, ReadAll(r, content, pos, 0)) == Took(sofar, pos)
  {
    assert sofar + [] == sofar;
  }

  lemma AllReadOn<T>(r: Reader<T>, content: string, pos: nat, count: nat, sofar: seq<T>)
    requires count > 0
    ensures var first := r(content, pos);
      Prepended(sofar, ReadAll(r, content, pos, count)) ==
      Prepended(sofar + [first.value], ReadAll(r, content, first.pos, count - 1))
  {
    var first := r(content, pos);
    var rest := ReadAll(r, content, first.pos, count - 1).value;
    assert sofar + ([first.value] + rest) == sofar + [first.value] + rest;
  }

  /** Everything `load` reads from a file. */
  method ReadImage(fl: Floats, content: string) returns (loading: Loading)
    ensures loading == Contents(fl, content)
  {
    hide Bytes.ReadNumber, ReadCounted, ReadEntry, ReadNode, ReadEdge;
    var f := new File(content);
    var ok, n := f.ReadNumber(8);
    if !ok || n != MAGIC {
      return NotAnImage;
    }
    ok, n := f.ReadNumber(4);
    if !ok || n != VERSION {
      return NotAnImage;
    }
    var entries := f.ReadEntries();
    var nodes := f.ReadNodes();
    var edges := f.ReadEdges(fl);
    ok, n := f.ReadNumber(8);
    loading := Loading(entries, nodes, edges, n == EOF_MARKER);
  }

  // Saving and restoring

  /** Writes the engines' live entries, nodes and edges. */
  method Save(fl: Floats, kv: KvEngine, graph: GraphEngine, now: int)
    returns (image: string, ghost entries: seq<KvEntry>, ghost nodes: seq<NodeRow>, ghost edges: seq<EdgeRow>)
    requires kv.Valid() && graph.Valid()
    ensures Lists(entries, kv.State(), now) && ListsNodes(nodes, graph.graph.meta) && ListsEdges(edges, graph.graph.adj)
    ensures image == Image(fl, entries, nodes, edges)
  {
    var kvRows := kv.AllEntries(now);
    var nodeRows := graph.AllNodes();
    var edgeRows := graph.AllEdges();
    entries, nodes, edges := kvRows, nodeRows, edgeRows;
    var kvPart := WriteRows(WriteEntry, kvRows);
    var nodePart := WriteRows(WriteNode, nodeRows);
    var edgePart := WriteRows(WriteEdge(fl), edgeRows);
    image := Le(MAGIC, 8) + (Le(VERSION, 4) + ((kvPart + (nodePart + edgePart)) + Le(EOF_MARKER, 8)));
  }

  /** One section: the count, then row after row. */
  method WriteRows<T>(write: T -> string, rows: seq<T>) returns (part: string)
    ensures part == WriteCounted(write, rows)
  {
    part := Le(|rows|, 8);
    for i := 0 to |rows|
      invariant part + WriteAll(write, rows[i..]) == WriteCounted(write, rows)
    {
      assert rows[i..][0] == rows[i] && rows[i..][1..] == rows[i + 1..];
      part := part + write(rows[i]);
    }
  }

  /** What loading one entry does: none if its deadline has passed. */
  function Reset(st: Store, now: int, e: KvEntry): Store {
    if e.deadline > 0 then
      if e.deadline - now <= 0 then st else Step(st, now, Event.Set(e.key, e.val, e.deadline - now))
    else Step(st, now, Event.Set(e.key, e.val, -1))
  }

  function ResetAll(st: Store, now: int, entries: seq<KvEntry>): Store {
    if entries == [] then st else
      Reset(ResetAll(st, now, entries[..|entries| - 1]), now, entries[|entries| - 1])
  }

  function AddedNodes(meta: map<int, NodeMeta>, rows: seq<NodeRow>): map<int, NodeMeta> {
    if rows == [] then meta else
      AddedNodes(meta, Init(rows))[Last(rows).id := NodeMeta(Last(rows).labelText, Last(rows).props)]
  }

  /** The edges the rows give node `u`, in row order. */
  function EdgesFrom(rows: seq<EdgeRow>, u: int): seq<Edge> {
    if rows == [] then [] else
      EdgesFrom(Init(rows), u) + if Last(rows).from == u then [Edge(Last(rows).to, Last(rows).rel, Last(rows).weight)] else []
  }

  lemma ResetNone(st: Store, now: int)
    ensures ResetAll(st, now, []) == st
  {
  }

  lemma ResetNext(st: Store, now: int, entries: seq<KvEntry>, i: nat)
    requires i < |entries|
    ensures ResetAll(st, now, entries[..i + 1]) == Reset(ResetAll(st, now, entries[..i]), now, entries[i])
  {
    assert entries[..i + 1][..i] == entries[..i];
  }

  method RestoreEntries(kv: KvEngine, now: int, entries: seq<KvEntry>)
    requires kv.Valid()
    modifies kv.map_, kv.map_.entries, kv.ttl_
    ensures kv.Valid() && kv.State() == ResetAll(old(kv.State()), now, entries)
    ensures kv.map_.entries == old(kv.map_.entries) || fresh(kv.map_.entries)
  {
    hide ResetAll, Step, KvEngine.Valid, KvEngine.State;
    ghost var was := kv.State();
    ResetNone(was, now);
    assert entries[..0] == [];
    for i := 0 to |entries|
      invariant kv.Valid() && kv.State() == ResetAll(was, now, entries[..i])
      invariant kv.map_.entries == old(kv.map_.entries) || fresh(kv.map_.entries)
    {
      ResetNext(was, now, entries, i);
      var e := entries[i];
      var ttl := -1;
      if e.deadline > 0 {
        ttl := e.deadline - now;
        if ttl <= 0 {
          continue;
        }
      }
      var _ := kv.Set(now, e.key, e.val, ttl);
    }
    assert entries[..|entries|] == entries;
  }

  method RestoreNodes(graph: GraphEngine, rows: seq<NodeRow>)
    requires graph.Valid()
    modifies graph.graph
    ensures graph.Valid() && graph.graph.meta == AddedNodes(old(graph.graph.meta), rows)
    ensures forall u :: Neighbors(graph.graph.adj, u) == old(Neighbors(graph.graph.adj, u))
  {
    for i := 0 to |rows|
      invariant graph.Valid() && graph.graph.meta == AddedNodes(old(graph.graph.meta), rows[..i])
      invariant forall u :: Neighbors(graph.graph.adj, u) == old(Neighbors(graph.graph.adj, u))
    {
      assert Init(rows[..i + 1]) == rows[..i];
      graph.AddNode(rows[i].id, rows[i].labelText, rows[i].props);
    }
    assert rows[..|rows|] == rows;
  }

  method RestoreEdges(graph: GraphEngine, rows: seq<EdgeRow>)
    requires graph.Valid()
    modifies graph.graph
    ensures graph.Valid() && graph.graph.meta == old(graph.graph.meta)
    ensures AllEdgesAdded(old(graph.graph.adj), graph.graph.adj, rows)
  {
    hide GraphEngine.Valid, AllEdgesAdded;
    ghost var was := graph.graph.adj;
    NoEdgesAdded(was, rows);
    for i := 0 to |rows|
      invariant graph.Valid() && graph.graph.meta == old(graph.graph.meta)
      invariant AllEdgesAdded(was, graph.graph.adj, rows[..i])
    {
      OneMoreEdge(was, graph.graph.adj, rows, i);
      graph.AddEdge(rows[i].from, rows[i].to, rows[i].rel, rows[i].weight);
    }
    assert rows[..|rows|] == rows;
  }

  ghost predicate AllEdgesAdded(was: Adjacency, adj: Adjacency, rows: seq<EdgeRow>) {
    forall u :: Neighbors(adj, u) == Neighbors(was, u) + EdgesFrom(rows, u)
  }

  lemma NoEdgesAdded(was: Adjacency, rows: seq<EdgeRow>)
    ensures AllEdgesAdded(was, was, rows[..0])
  {
    forall u
      ensures Neighbors(was, u) == Neighbors(was, u) + EdgesFrom(rows[..0], u)
    {
    }
  }

  lemma SameBase(was: Adjacency, mid: Adjacency, adj: Adjacency, rows: seq<EdgeRow>)
    requires AllEdgesAdded(mid, adj, rows) && forall u :: Neighbors(mid, u) == Neighbors(was, u)
    ensures AllEdgesAdded(was, adj, rows)
  {
  }

  lemma OneMoreEdge(was: Adjacency, adj: Adjacency, rows: seq<EdgeRow>, i: nat)
    requires i < |rows| && AllEdgesAdded(was, adj, rows[..i])
    ensures var r := rows[i];
      AllEdgesAdded(was, adj[r.from := Neighbors(adj, r.from) + [Edge(r.to, r.rel, r.weight)]], rows[..i + 1])
  {
    var r := rows[i];
    var adj' := adj[r.from := Neighbors(adj, r.from) + [Edge(r.to, r.rel, r.weight)]];
    assert Init(rows[..i + 1]) == rows[..i] && Last(rows[..i + 1]) == r;
    forall u
      ensures Neighbors(adj', u) == Neighbors(was, u) + EdgesFrom(rows[..i + 1], u)
    {
      assert Neighbors(adj, u) == Neighbors(was, u) + EdgesFrom(rows[..i], u);
    }
  }

  /** The engines share no parts. */
  ghost predicate Unshared(kv: KvEngine, graph: GraphEngine)
    reads kv, kv.map_, graph, graph.propIndex
  {
    var parts: set<object> := graph.propIndex.repr;
    kv.map_ !in parts && kv.map_.entries !in parts && kv.ttl_ !in parts
  }

  /** `load`: reads the file and adds what it holds to the engines. */
  method Load(fl: Floats, content: string, kv: KvEngine, graph: GraphEngine, now: int) returns (ok: bool)
    requires kv.Valid() && graph.Valid() && Unshared(kv, graph)
    modifies kv.map_, kv.map_.entries, kv.ttl_, graph.graph
    ensures kv.Valid() && graph.Valid() && (ok <==> Accepts(fl, content))
    ensures var l := Contents(fl, content);
      if l.NotAnImage? then kv.State() == old(kv.State()) && graph.graph.meta == old(graph.graph.meta)
      else
        && kv.State() == ResetAll(old(kv.State()), now, l.entries)
        && graph.graph.meta == AddedNodes(old(graph.graph.meta), l.nodes)
        && AllEdgesAdded(old(graph.graph.adj), graph.graph.adj, l.edges)
  {
    hide Contents, ResetAll, AddedNodes, EdgesFrom, AllEdgesAdded, KvEngine.Valid, KvEngine.State;
    var l := ReadImage(fl, content);
    if l.NotAnImage? {
      return false;
    }
    RestoreEntries(kv, now, l.entries);
    ghost var was := graph.graph.adj;
    RestoreNodes(graph, l.nodes);
    ghost var mid := graph.graph.adj;
    RestoreEdges(graph, l.edges);
    SameBase(was, mid, graph.graph.adj, l.edges);
    ok := l.ok;
  }

  /** What of a store shows at `now`. */
  function Shown(st: Store, now: int): Store {
    Store(map k | k in st.values && Shows(st, now, k) :: st.values[k],
          map k | k in st.due && k in st.values && Shows(st, now, k) :: st.due[k])
  }

  /** What a load at `now` brings back of it: values, and the deadlines that are not negative. */
  function Restored(st: Store, now: int): Store {
    Shown(st, now).(due := map k | k in st.due && k in st.values && Shows(st, now, k) && st.due[k] >= 0 :: st.due[k])
  }

  /** All that shows by then comes back if and only if no key that shows has a negative deadline. */
  lemma AllComesBack(st: Store, now: int, later: int, entries: seq<KvEntry>)
    requires 0 <= now <= later && Sound(st) && Lists(entries, st, now)
    ensures ResetAll(Store(map[], map[]), later, entries) == Shown(st, later) <==>
              forall k :: k in st.due && Shows(st, later, k) ==> st.due[k] >= 0
  {
    hide ResetAll, Lists, Sound;
    EntriesComeBack(st, now, later, entries);
    var a, b := Restored(st, later), Shown(st, later);
    if forall k :: k in st.due && Shows(st, later, k) ==> st.due[k] >= 0 {
      assert a.due == b.due;
    } else {
      var k :| k in st.due && Shows(st, later, k) && st.due[k] < 0;
      assert k in b.due && k !in a.due;
    }
  }

  /** A deadline of -5, as `expire` can set it at clock 0, is saved and not restored. */
  lemma NegativeDeadlineIsLost()
    ensures var st, entries := Store(map["k" := "v"], map["k" := -5]), [KvEntry("k", "v", -5)];
      && Lists(entries, st, 0)
      && ResetAll(Store(map[], map[]), 0, entries) == Store(map["k" := "v"], map[])
      && Shown(st, 0) == st
  {
    var st, entries := Store(map["k" := "v"], map["k" := -5]), [KvEntry("k", "v", -5)];
    assert entries[0].key == "k" && Shows(st, 0, "k");
    assert entries[..0] == [];
    ResetNone(Store(map[], map[]), 0);
  }

  /** What a loaded entry does: nothing if its deadline has passed, and otherwise the key has the value, and
      the deadline if that is positive; no other key changes. */
  lemma ResetIsExact(st: Store, now: int, e: KvEntry, k: string)
    requires 0 <= now && IsSigned(e.deadline, TWO_64)
    ensures var after, passed := Reset(st, now, e), 0 < e.deadline <= now;
      if passed || k != e.key then
        && (k in after.values <==> k in st.values) && (k in st.values ==> after.values[k] == st.values[k])
        && (k in after.due <==> k in st.due) && (k in st.due ==> after.due[k] == st.due[k])
      else
        && k in after.values && after.values[k] == e.val
        && (k in after.due <==> e.deadline > 0) && (e.deadline > 0 ==> after.due[k] == e.deadline)
  {
    SignedInverts(e.deadline, TWO_64);
  }

  /** An entry due at 100 is not restored at 200. */
  lemma PassedIsSkipped()
    ensures ResetAll(Store(map[], map[]), 200, [KvEntry("k", "v", 100)]) == Store(map[], map[])
  {
    var entries := [KvEntry("k", "v", 100)];
    assert entries[..0] == [];
    ResetNone(Store(map[], map[]), 200);
  }

  /** Values and deadlines of `keys`, the negative deadlines left out. */
  function Only(st: Store, keys: set<string>): Store {
    Store(map k | k in st.values && k in keys :: st.values[k],
          map k | k in st.due && k in keys && st.due[k] >= 0 :: st.due[k])
  }

  function KeysOf(entries: seq<KvEntry>): set<string> {
    set i | 0 <= i < |entries| :: entries[i].key
  }

  lemma ResetIs(st: Store, now: int, later: int, keys: set<string>, e: KvEntry)
    requires 0 <= now <= later && Shows(st, now, e.key)
    requires e == KvEntry(e.key, st.values[e.key], DeadlineOf(st, e.key)) && IsSigned(e.deadline, TWO_64)
    ensures Reset(Only(st, keys), later, e) == Only(st, if Shows(st, later, e.key) then keys + {e.key} else keys)
  {
    var a, b := Reset(Only(st, keys), later, e), Only(st, if Shows(st, later, e.key) then keys + {e.key} else keys);
    SignedInverts(e.deadline, TWO_64);
    assert a.values == b.values;
    assert a.due == b.due;
  }

  /** The keys of `entries` that show at `later`. */
  function ShownOf(st: Store, later: int, entries: seq<KvEntry>): set<string> {
    set k | k in KeysOf(entries) && Shows(st, later, k)
  }

  lemma ShownOfMore(st: Store, later: int, entries: seq<KvEntry>, n: nat)
    requires n < |entries|
    ensures ShownOf(st, later, entries[..0]) == {}
    ensures var keys, k := ShownOf(st, later, entries[..n]), entries[n].key;
      ShownOf(st, later, entries[..n + 1]) == if Shows(st, later, k) then keys + {k} else keys
  {
    hide KeysOf;
    assert KeysOf(entries[..0]) == {} by {
      NoKeys();
    }
    KeysOfMore(entries, n);
  }

  lemma NoKeys()
    ensures KeysOf([]) == {}
  {
  }

  lemma {:induction false} ResetRestores(st: Store, now: int, later: int, entries: seq<KvEntry>, n: nat)
    requires 0 <= now <= later && Sound(st) && Lists(entries, st, now) && n <= |entries|
    ensures ResetAll(Store(map[], map[]), later, entries[..n]) == Only(st, ShownOf(st, later, entries[..n]))
  {
    if n > 0 {
      ResetRestores(st, now, later, entries, n - 1);
      ListedEntry(entries, st, now, n - 1);
      hide Reset, Only, ShownOf, Lists;
      assert entries[..n][..n - 1] == entries[..n - 1];
      ResetIs(st, now, later, ShownOf(st, later, entries[..n - 1]), entries[n - 1]);
      ShownOfMore(st, later, entries, n - 1);
    }
  }

  lemma ListedEntry(entries: seq<KvEntry>, st: Store, now: int, i: nat)
    requires Sound(st) && Lists(entries, st, now) && i < |entries|
    ensures var e := entries[i];
      && Shows(st, now, e.key) && e == KvEntry(e.key, st.values[e.key], DeadlineOf(st, e.key))
      && IsSigned(e.deadline, TWO_64)
  {
  }

  lemma KeysOfMore(entries: seq<KvEntry>, n: nat)
    requires n < |entries|
    ensures KeysOf(entries[..n + 1]) == KeysOf(entries[..n]) + {entries[n].key}
  {
    var a, b := entries[..n + 1], entries[..n];
    forall k
      ensures k in KeysOf(a) <==> k in KeysOf(b) || k == entries[n].key
    {
      if k in KeysOf(b) {
        var i :| 0 <= i < |b| && b[i].key == k;
        assert a[i].key == k;
      }
      assert a[n].key == entries[n].key;
      if k in KeysOf(a) && k != entries[n].key {
        var i :| 0 <= i < |a| && a[i].key == k;
        assert b[i].key == k;
      }
    }
  }

  lemma AddedNext(meta: map<int, NodeMeta>, rows: seq<NodeRow>, n: nat)
    requires n < |rows|
    ensures AddedNodes(meta, rows[..n + 1]) ==
            AddedNodes(meta, rows[..n])[rows[n].id := NodeMeta(rows[n].labelText, rows[n].props)]
  {
    assert Init(rows[..n + 1]) == rows[..n];
  }

  ghost function RowIds(rows: seq<NodeRow>): set<int> {
    set i | 0 <= i < |rows| :: rows[i].id
  }

  lemma RowIdsMore(rows: seq<NodeRow>, n: nat)
    requires n < |rows|
    ensures RowIds(rows[..n + 1]) == RowIds(rows[..n]) + {rows[n].id}
  {
    var a, b := rows[..n + 1], rows[..n];
    forall id
      ensures id in RowIds(a) <==> id in RowIds(b) || id == rows[n].id
    {
      if id in RowIds(b) {
        var i :| 0 <= i < |b| && b[i].id == id;
        assert a[i].id == id;
      }
      assert a[n].id == rows[n].id;
      if id in RowIds(a) && id != rows[n].id {
        var i :| 0 <= i < |a| && a[i].id == id;
        assert b[i].id == id;
      }
    }
  }

  ghost function Part(meta: map<int, NodeMeta>, ids: set<int>): map<int, NodeMeta> {
    map id | id in ids && id in meta :: meta[id]
  }

  lemma PartMore(meta: map<int, NodeMeta>, ids: set<int>, id: int)
    requires id in meta
    ensures Part(meta, ids + {id}) == Part(meta, ids)[id := meta[id]]
  {
  }

  /** Nodes with distinct ids are added as they are. */
  lemma {:induction false} NodesRestored(rows: seq<NodeRow>, meta: map<int, NodeMeta>, n: nat)
    requires ListsNodes(rows, meta) && n <= |rows|
    ensures AddedNodes(map[], rows[..n]) == Part(meta, RowIds(rows[..n]))
  {
    if n > 0 {
      hide AddedNodes, RowIds, Part;
      NodesRestored(rows, meta, n - 1);
      AddedNext(map[], rows, n - 1);
      RowIdsMore(rows, n - 1);
      PartMore(meta, RowIds(rows[..n - 1]), rows[n - 1].id);
    }
  }

  lemma {:induction false} EdgesFromSum(a: seq<EdgeRow>, b: seq<EdgeRow>, u: int)
    ensures EdgesFrom(a + b, u) == EdgesFrom(a, u) + EdgesFrom(b, u)
  {
    if b == [] {
      assert a + b == a;
    } else {
      assert Init(a + b) == a + Init(b);
      EdgesFromSum(a, Init(b), u);
    }
  }

  lemma {:induction false} RowsOfOne(v: int, es: seq<Edge>, u: int)
    ensures EdgesFrom(Rows(v, es), u) == if u == v then es else []
  {
    if es != [] {
      RowsOfOne(v, Init(es), u);
      var row := EdgeRow(v, Last(es).to, Last(es).rel, Last(es).weight);
      assert Init(Rows(v, es)) == Rows(v, Init(es));
      assert es == Init(es) + [Last(es)];
    }
  }

  lemma RowsOfNext(adj: Adjacency, sources: seq<int>, v: int, u: int)
    ensures EdgesFrom(RowsAlong(adj, sources + [v]), u) ==
            EdgesFrom(RowsAlong(adj, sources), u) + if u == v then Neighbors(adj, v) else []
  {
    hide EdgesFrom, Rows;
    assert Init(sources + [v]) == sources;
    RowsOfOne(v, Neighbors(adj, v), u);
    EdgesFromSum(RowsAlong(adj, sources), Rows(v, Neighbors(adj, v)), u);
  }

  lemma {:induction false} EdgesRestored(adj: Adjacency, sources: seq<int>, u: int)
    requires forall i, j :: 0 <= i < j < |sources| ==> sources[i] != sources[j]
    ensures EdgesFrom(RowsAlong(adj, sources), u) == if u in sources then Neighbors(adj, u) else []
  {
    if sources != [] {
      hide EdgesFrom, RowsAlong, Neighbors;
      var rest, v := Init(sources), Last(sources);
      LastIsNew(sources);
      EdgesRestored(adj, rest, u);
      RowsOfNext(adj, rest, v, u);
    }
  }

  lemma LastIsNew(ids: seq<int>)
    requires ids != [] && forall i, j :: 0 <= i < j < |ids| ==> ids[i] != ids[j]
    ensures ids == Init(ids) + [Last(ids)] && Last(ids) !in Init(ids)
  {
  }

  /** Loading what was saved at `now` into empty engines at any `later` clock reading brings back every entry
      that still shows then, with its value and its deadline unless that is negative, all metadata, and every
      node's edge list, in order. */
  lemma SavedIsRestored(fl: Floats, st: Store, meta: map<int, NodeMeta>, adj: Adjacency, now: int, later: int,
                        entries: seq<KvEntry>, nodes: seq<NodeRow>, edges: seq<EdgeRow>)
    requires 0 <= now <= later && Sound(st)
    requires Lists(entries, st, now) && ListsNodes(nodes, meta) && ListsEdges(edges, adj)
    requires Fits(fl, entries, nodes, edges)
    ensures var l := Contents(fl, Image(fl, entries, nodes, edges));
      && l.Loading? && l.ok
      && ResetAll(Store(map[], map[]), later, l.entries) == Restored(st, later)
      && AddedNodes(map[], l.nodes) == meta
      && forall u :: EdgesFrom(l.edges, u) == Neighbors(adj, u)
  {
    hide Fits, Image, Contents, ResetAll, Shown, AddedNodes, EdgesFrom, Lists, ListsNodes, ListsEdges, Sound, Restored;
    ImageIsRead(fl, entries, nodes, edges);
    EntriesComeBack(st, now, later, entries);
    NodesComeBack(nodes, meta);
    EdgesComeBack(edges, adj);
  }

  lemma OnlyRestored(st: Store, now: int, keys: set<string>)
    requires Sound(st) && forall k :: k in keys <==> Shows(st, now, k)
    ensures Only(st, keys) == Restored(st, now)
  {
    var a, b := Only(st, keys), Restored(st, now);
    assert a.values == b.values;
    assert a.due == b.due;
  }

  lemma EntriesComeBack(st: Store, now: int, later: int, entries: seq<KvEntry>)
    requires 0 <= now <= later && Sound(st) && Lists(entries, st, now)
    ensures ResetAll(Store(map[], map[]), later, entries) == Restored(st, later)
  {
    ResetRestores(st, now, later, entries, |entries|);
    assert entries[..|entries|] == entries;
    forall k
      ensures k in ShownOf(st, later, entries) <==> Shows(st, later, k)
    {
      if Shows(st, later, k) {
        assert Shows(st, now, k);
        var i :| 0 <= i < |entries| && entries[i].key == k;
      }
    }
    OnlyRestored(st, later, ShownOf(st, later, entries));
  }

  lemma NodesComeBack(nodes: seq<NodeRow>, meta: map<int, NodeMeta>)
    requires ListsNodes(nodes, meta)
    ensures AddedNodes(map[], nodes) == meta
  {
    NodesRestored(nodes, meta, |nodes|);
    hide AddedNodes;
    assert nodes[..|nodes|] == nodes;
    AllNodesListed(nodes, meta);
  }

  lemma AllNodesListed(nodes: seq<NodeRow>, meta: map<int, NodeMeta>)
    requires ListsNodes(nodes, meta)
    ensures Part(meta, RowIds(nodes)) == meta
  {
    forall id | id in meta
      ensures id in RowIds(nodes)
    {
      var i :| 0 <= i < |nodes| && nodes[i].id == id;
    }
  }

  lemma EdgesComeBack(edges: seq<EdgeRow>, adj: Adjacency)
    requires ListsEdges(edges, adj)
    ensures forall u :: EdgesFrom(edges, u) == Neighbors(adj, u)
  {
    var sources :| Enumerates(sources, adj.Keys) && edges == RowsAlong(adj, sources);
    forall u
      ensures EdgesFrom(edges, u) == Neighbors(adj, u)
    {
      EdgesRestored(adj, sources, u);
    }
  }
}
