/**
 * `xmlformatter.FormatToXml`: one input row as a DDI XML tree. Each column of
 * `XML_FIELD_MAP` that the row gives is followed from the study element down
 * its path of tags, finding or creating the nodes on the way, and its leaf
 * nodes are appended at the end. The lxml element tree is a value tree of
 * tags, attributes, text and children.
 */
module XmlFormatter {
  import opened Results
  import opened Ordering
  import TsvFile
  import StudyBuilder
  import opened Keywords

  /** An element: its tag, attributes, text (`None` when never set) and children, in order. */
  datatype XNode = XNode(tag: string, attrs: map<string, string>, text: Option<string>, children: seq<XNode>)

  /** `FormatToXml.SOURCE`. */
  const Source: string := "DVN_3_0"

  /** `XML_ATTRIBUTES`: the attributes an intermediate node is created with, by tag. */
  const XmlAttributes: map<string, map<string, string>> := map["citation" := map["source" := Source]]

  /**
   * The last item of an output path: a tag for a new text node, or one of the
   * builders the map calls with the row's value.
   */
  datatype LeafSpec =
    | Text(tag: string)
    | KeywordList
    | TimePeriod(element: string, event: Option<string>)
    | AttrAndText(element: string, attribute: string)

  /** One entry of `XML_FIELD_MAP`: the input column, the tags down to the leaf, and the leaf. */
  datatype Entry = Entry(field: string, path: seq<string>, leaf: LeafSpec)

  /** `XML_FIELD_MAP`, in its order. */
  const FieldMap: seq<Entry> := [
    Entry("Author", ["citation", "rspStmt"], Text("AuthEnty")),
    Entry("Availability Status", ["dataAccs", "setAvail"], Text("avlStatus")),
    Entry("Country/Nation", ["stdyInfo", "sumDscr"], Text("nation")),
    Entry("Description", ["stdyInfo"], Text("abstract")),
    Entry("Distributor", ["citation", "distStmt"], Text("distrbtr")),
    Entry("Geographic Coverage", ["stdyInfo", "sumDscr"], Text("geogCover")),
    Entry("Geographic Unit", ["stdyInfo", "sumDscr"], Text("geogUnit")),
    Entry("Keywords", ["stdyInfo", "subject"], KeywordList),
    Entry("Original Archive", ["dataAccs", "setAvail"], Text("origArch")),
    Entry("Production Date", ["citation", "prodStmt"], TimePeriod("prodDate", None)),
    Entry("Publication Citation", ["othrStdyMat", "relPubl", "citation"], Text("biblCit")),
    Entry("Publication URL", ["othrStdyMat", "relPubl", "citation"], AttrAndText("holdings", "URI")),
    Entry("Publication URL", ["dataAccs", "setAvail"], Text("accsPlac")),
    Entry("Size of Collection", ["dataAccs", "setAvail"], Text("collSize")),
    Entry("Time Period Covered End", ["stdyInfo", "sumDscr"], TimePeriod("timePrd", Some("end"))),
    Entry("Time Period Covered Start", ["stdyInfo", "sumDscr"], TimePeriod("timePrd", Some("start"))),
    Entry("Title", ["citation", "titlStmt"], Text("titl"))
  ]

  // ---------------------------------------------------------------------------
  // leaf builders

  /** `NodeWithAttrAndText(element_name, attribute_name, text)`: the one attribute holds the text. */
  function NodeWithAttrAndText(element: string, attribute: string, text: string): (r: XNode)
    ensures r.tag == element && r.text == Some(text) && r.children == []
    ensures r.attrs.Keys == {attribute} && r.attrs[attribute] == text
  {
    XNode(element, map[attribute := text], Some(text), [])
  }

  /**
   * `TimePeriodNode(element_name, iso_date_string, event_name)`: the `date`
   * attribute is the text, and an `event` attribute is there exactly when an
   * event name is given.
   */
  function TimePeriodNode(element: string, date: string, event: Option<string>): (r: XNode)
    ensures r.tag == element && r.text == Some(date) && r.children == []
    ensures "date" in r.attrs && r.attrs["date"] == date
    ensures ("event" in r.attrs <==> event.Some?) && (event.Some? ==> r.attrs["event"] == event.value)
    ensures r.attrs.Keys <= {"date", "event"}
  {
    var args := map["date" := date];
    XNode(element, if event.Some? then args["event" := event.value] else args, Some(date), [])
  }

  /** `<keyword vocab="...">text</keyword>`. */
  function KeywordNode(kw: (string, string)): XNode {
    XNode("keyword", map["vocab" := kw.0], Some(kw.1), [])
  }

  /** The keyword a `keyword` node stands for: its `vocab` and its text. */
  function KeywordOf(n: XNode): (string, string) {
    (if "vocab" in n.attrs then n.attrs["vocab"] else "", if n.text.Some? then n.text.value else "")
  }

  function KeywordsOf(nodes: seq<XNode>): (r: seq<(string, string)>)
    ensures |r| == |nodes|
  {
    seq(|nodes|, i requires 0 <= i < |nodes| => KeywordOf(nodes[i]))
  }

  /** What `KeywordsFromString` returns: one node per match, in tuple order; none when nothing matches. */
  function KeywordNodes(s: string): (r: seq<XNode>)
    ensures |r| == |FindAll(s)|
  {
    var entries := FindAll(s);
    if entries == [] then []
    else
      var sorted := SortKeywords(entries);
      seq(|sorted|, i requires 0 <= i < |sorted| => KeywordNode(sorted[i]))
  }

  /**
   * `KeywordsFromString(keyword_string)`: every match of the keyword pattern
   * becomes a `keyword` node, the matches sorted as tuples first.
   */
  method KeywordsFromString(s: string) returns (output: seq<XNode>)
    ensures output == KeywordNodes(s)
    ensures forall i :: 0 <= i < |output| ==> output[i].tag == "keyword" && output[i].children == []
    ensures Sorted(KeywordsOf(output), StrStrLe) && multiset(KeywordsOf(output)) == multiset(FindAll(s))
  {
    output := [];
    var entries := FindAll(s);
    if entries == [] {
      return;
    }
    var sorted := SortKeywords(entries);
    output := NodesFor(sorted);
    NodesOfSorted(s, output);
    KeywordNodesMeaning(s);
  }

  /** `for k in sorted: output.append(KeywordNode(k))`. */
  method NodesFor(sorted: seq<(string, string)>) returns (output: seq<XNode>)
    ensures |output| == |sorted| && forall j :: 0 <= j < |output| ==> output[j] == KeywordNode(sorted[j])
  {
    output := [];
    var i := 0;
    while i < |sorted|
      invariant 0 <= i <= |sorted| && |output| == i
      invariant forall j :: 0 <= j < i ==> output[j] == KeywordNode(sorted[j])
    {
      output := output + [KeywordNode(sorted[i])];
      i := i + 1;
    }
  }

  /** Nodes made one by one from the sorted matches are the nodes `KeywordNodes` describes. */
  lemma NodesOfSorted(s: string, output: seq<XNode>)
    requires FindAll(s) != [] && |output| == |SortKeywords(FindAll(s))|
    requires forall j :: 0 <= j < |output| ==> output[j] == KeywordNode(SortKeywords(FindAll(s))[j])
    ensures output == KeywordNodes(s)
    ensures forall i :: 0 <= i < |output| ==> output[i].tag == "keyword" && output[i].children == []
  {
    var nodes := KeywordNodes(s);
    assert |nodes| == |output|;
    forall j | 0 <= j < |output| ensures output[j] == nodes[j] {
    }
  }

  /** The keywords of the nodes are the matches, sorted: in tuple order and the same multiset. */
  lemma KeywordNodesMeaning(s: string)
    ensures KeywordsOf(KeywordNodes(s)) == SortKeywords(FindAll(s))
    ensures Sorted(KeywordsOf(KeywordNodes(s)), StrStrLe) && multiset(KeywordsOf(KeywordNodes(s))) == multiset(FindAll(s))
  {
    var entries := FindAll(s);
    var sorted := SortKeywords(entries);
    var nodes := KeywordNodes(s);
    if entries == [] {
      StrStrOrder();
      assert Sort(entries, StrStrLe) == [];
    } else {
      forall i | 0 <= i < |nodes| ensures KeywordsOf(nodes)[i] == sorted[i] {
        assert nodes[i] == KeywordNode(sorted[i]);
      }
    }
  }

  /**
   * The `Keywords` text the study builder renders gives back, as nodes, its
   * keywords in tuple order when every vocabulary is of `[a-z-]` and no value
   * holds a double quote.
   */
  lemma KeywordNodesOfRendered(kws: seq<(string, string)>)
    requires forall i :: 0 <= i < |kws| ==> Readable(kws[i])
    ensures KeywordsOf(KeywordNodes(StudyBuilder.KeywordsText(kws))) == SortKeywords(kws)
  {
    if kws != [] {
      FindAllKeywordsText(kws);
    }
    KeywordNodesMeaning(StudyBuilder.KeywordsText(kws));
    if kws == [] {
      StrStrOrder();
      assert Sort(kws, StrStrLe) == [];
      assert KeywordNodes(StudyBuilder.KeywordsText(kws)) == [] by {
        assert |FindAll(StudyBuilder.KeywordsText(kws))| == 0 by {
          EmptyKeywordsText();
        }
      }
    }
  }

  lemma EmptyKeywordsText()
    ensures FindAll(StudyBuilder.KeywordsText([])) == []
  {
    var none: seq<(string, string)> := [];
    assert |seq(|none|, i requires 0 <= i < |none| => StudyBuilder.KeywordItem(none[i]))| == 0;
  }

  /** What the leaf of an entry puts under the node its path reaches. */
  function LeafNodes(spec: LeafSpec, value: string): seq<XNode> {
    match spec
    case Text(tag) => [XNode(tag, map[], Some(value), [])]
    case KeywordList => KeywordNodes(value)
    case TimePeriod(element, event) => [TimePeriodNode(element, value, event)]
    case AttrAndText(element, attribute) => [NodeWithAttrAndText(element, attribute, value)]
  }

  // ---------------------------------------------------------------------------
  // finding or creating the nodes along a path

  /** `parent.find(tag)`: the position of the first child with the tag. */
  function FirstWithTag(children: seq<XNode>, tag: string): (r: Option<nat>)
    ensures r.Some? ==> r.value < |children| && children[r.value].tag == tag
    ensures r.Some? ==> forall j :: 0 <= j < r.value ==> children[j].tag != tag
    ensures r.None? ==> forall j :: 0 <= j < |children| ==> children[j].tag != tag
  {
    if children == [] then None
    else if children[0].tag == tag then Some(0)
    else match FirstWithTag(children[1..], tag)
      case Some(k) => Some(k + 1)
      case None => None
  }

  /** A node created for a missing tag: with the attributes `XML_ATTRIBUTES` gives the tag, no text, no children. */
  function NewNode(tag: string): XNode {
    XNode(tag, if tag in XmlAttributes then XmlAttributes[tag] else map[], None, [])
  }

  /**
   * The walk of `Row` down one path: at each tag the first child with it is
   * entered, or a new node appended and entered; at the end the leaves are
   * appended.
   */
  function Place(parent: XNode, path: seq<string>, leaves: seq<XNode>): (r: XNode)
    ensures r.tag == parent.tag && r.attrs == parent.attrs && r.text == parent.text
    decreases |path|
  {
    if path == [] then parent.(children := parent.children + leaves)
    else match FirstWithTag(parent.children, path[0])
      case Some(k) => parent.(children := parent.children[k := Place(parent.children[k], path[1..], leaves)])
      case None => parent.(children := parent.children + [Place(NewNode(path[0]), path[1..], leaves)])
  }

  /** The node a path of tags reaches through first matches, if every tag is found. */
  function FindPath(n: XNode, path: seq<string>): Option<XNode>
    decreases |path|
  {
    if path == [] then Some(n)
    else match FirstWithTag(n.children, path[0])
      case Some(k) => FindPath(n.children[k], path[1..])
      case None => None
  }

  /**
   * Find or create: the first child with the path's first tag is rebuilt in
   * place when there is one; otherwise one node with that tag is appended.
   * Every other child stays as it was.
   */
  lemma PlaceFindsOrCreates(parent: XNode, path: seq<string>, leaves: seq<XNode>)
    requires path != []
    ensures var r := Place(parent, path, leaves); var k := FirstWithTag(parent.children, path[0]);
      && |r.children| == |parent.children| + (if k.Some? then 0 else 1)
      && (forall i :: 0 <= i < |parent.children| && (k.None? || i != k.value) ==> r.children[i] == parent.children[i])
      && (forall i :: 0 <= i < |r.children| ==> r.children[i].tag == if i < |parent.children| then parent.children[i].tag else path[0])
  {
  }

  /** No two children share a tag. */
  predicate DistinctTags(children: seq<XNode>) {
    forall i, j :: 0 <= i < j < |children| ==> children[i].tag != children[j].tag
  }

  /** Along a non-empty path, a parent whose children have distinct tags keeps them distinct. */
  lemma PlaceKeepsDistinct(parent: XNode, path: seq<string>, leaves: seq<XNode>)
    requires path != [] && DistinctTags(parent.children)
    ensures DistinctTags(Place(parent, path, leaves).children)
  {
    PlaceFindsOrCreates(parent, path, leaves);
  }

  /** After placing, the path reaches a node whose children are the ones it had, or none, and then the leaves. */
  lemma {:induction false} PlaceThenFind(parent: XNode, path: seq<string>, leaves: seq<XNode>)
    ensures var m := FindPath(Place(parent, path, leaves), path); var old_ := FindPath(parent, path);
      m.Some? && m.value.children == (if old_.Some? then old_.value.children else []) + leaves
    decreases |path|
  {
    if path != [] {
      var r := Place(parent, path, leaves);
      PlaceFindsOrCreates(parent, path, leaves);
      match FirstWithTag(parent.children, path[0])
      case Some(k) =>
        assert FirstWithTag(r.children, path[0]) == Some(k) by {
          FirstWithSameTags(parent.children, r.children, path[0]);
        }
        PlaceThenFind(parent.children[k], path[1..], leaves);
      case None =>
        var c := Place(NewNode(path[0]), path[1..], leaves);
        assert r.children == parent.children + [c];
        assert FirstWithTag(r.children, path[0]) == Some(|parent.children|) by {
          FirstAfterMissing(parent.children, c, path[0]);
        }
        PlaceThenFind(NewNode(path[0]), path[1..], leaves);
        if |path| > 1 {
          FindPathFresh(NewNode(path[0]), path[1..]);
        }
    }
  }

  /** The first match is decided by the tags along the shorter sequence. */
  lemma {:induction false} FirstWithSameTags(a: seq<XNode>, b: seq<XNode>, tag: string)
    requires FirstWithTag(a, tag).Some? && |a| <= |b|
    requires forall i :: 0 <= i < |a| ==> b[i].tag == a[i].tag
    ensures FirstWithTag(b, tag) == FirstWithTag(a, tag)
    decreases |a|
  {
    if a[0].tag != tag {
      FirstWithSameTags(a[1..], b[1..], tag);
    }
  }

  /** A tag no child has is first found on a node appended after them. */
  lemma {:induction false} FirstAfterMissing(a: seq<XNode>, c: XNode, tag: string)
    requires FirstWithTag(a, tag).None? && c.tag == tag
    ensures FirstWithTag(a + [c], tag) == Some(|a|)
    decreases |a|
  {
    if a != [] {
      assert (a + [c])[1..] == a[1..] + [c];
      FirstAfterMissing(a[1..], c, tag);
    }
  }

  /** A node without children reaches nothing below itself. */
  lemma FindPathFresh(n: XNode, path: seq<string>)
    requires n.children == [] && path != []
    ensures FindPath(n, path).None?
  {
  }

  // ---------------------------------------------------------------------------
  // every citation is marked with its source

  /** Every `citation` node in the tree carries `source="DVN_3_0"`. */
  predicate Marked(n: XNode)
    decreases n
  {
    && (n.tag == "citation" ==> "source" in n.attrs && n.attrs["source"] == Source)
    && forall i :: 0 <= i < |n.children| ==> Marked(n.children[i])
  }

  predicate AllMarked(nodes: seq<XNode>) {
    forall i :: 0 <= i < |nodes| ==> Marked(nodes[i])
  }

  /** A created node is marked: a `citation` is created with its source. */
  lemma NewNodeMarked(tag: string)
    ensures Marked(NewNode(tag))
  {
  }

  /** Placing marked leaves in a marked tree leaves it marked. */
  lemma {:induction false} PlaceKeepsMarked(parent: XNode, path: seq<string>, leaves: seq<XNode>)
    requires Marked(parent) && AllMarked(leaves)
    ensures Marked(Place(parent, path, leaves))
    decreases |path|
  {
    var r := Place(parent, path, leaves);
    if path == [] {
      forall i | 0 <= i < |r.children| ensures Marked(r.children[i]) {
        if i >= |parent.children| {
          assert r.children[i] == leaves[i - |parent.children|];
        }
      }
    } else {
      match FirstWithTag(parent.children, path[0])
      case Some(k) =>
        PlaceKeepsMarked(parent.children[k], path[1..], leaves);
      case None =>
        NewNodeMarked(path[0]);
        PlaceKeepsMarked(NewNode(path[0]), path[1..], leaves);
        assert r.children == parent.children + [Place(NewNode(path[0]), path[1..], leaves)];
    }
  }

  /** A leaf that is not itself a `citation`. */
  predicate LeafSafe(spec: LeafSpec) {
    match spec
    case Text(tag) => tag != "citation"
    case KeywordList => true
    case TimePeriod(element, _) => element != "citation"
    case AttrAndText(element, _) => element != "citation"
  }

  lemma LeafNodesMarked(spec: LeafSpec, value: string)
    requires LeafSafe(spec)
    ensures AllMarked(LeafNodes(spec, value))
  {
    if spec.KeywordList? {
      var nodes := KeywordNodes(value);
      forall i | 0 <= i < |nodes| ensures Marked(nodes[i]) {
        var sorted := SortKeywords(FindAll(value));
        assert nodes[i] == KeywordNode(sorted[i]);
      }
    }
  }

  /** Every entry of the map has at least one intermediate tag and a leaf that is not a `citation`. */
  predicate EntryShape(e: Entry) {
    e.path != [] && LeafSafe(e.leaf)
  }

  lemma FieldMapShape()
    ensures forall i :: 0 <= i < |FieldMap| ==> EntryShape(FieldMap[i])
  {
  }

  // ---------------------------------------------------------------------------
  // later entries only add to the tree

  /** `b` is `a` with children appended, at any depth. */
  predicate Grows(a: XNode, b: XNode)
    decreases a
  {
    && a.tag == b.tag && a.attrs == b.attrs && a.text == b.text && |a.children| <= |b.children|
    && forall i :: 0 <= i < |a.children| ==> Grows(a.children[i], b.children[i])
  }

  lemma {:induction false} GrowsRefl(a: XNode)
    ensures Grows(a, a)
    decreases a
  {
    forall i | 0 <= i < |a.children| ensures Grows(a.children[i], a.children[i]) {
      GrowsRefl(a.children[i]);
    }
  }

  lemma {:induction false} GrowsTrans(a: XNode, b: XNode, c: XNode)
    requires Grows(a, b) && Grows(b, c)
    ensures Grows(a, c)
    decreases a
  {
    forall i | 0 <= i < |a.children| ensures Grows(a.children[i], c.children[i]) {
      GrowsTrans(a.children[i], b.children[i], c.children[i]);
    }
  }

  /** Placing only adds. */
  lemma {:induction false} PlaceGrows(parent: XNode, path: seq<string>, leaves: seq<XNode>)
    ensures Grows(parent, Place(parent, path, leaves))
    decreases |path|
  {
    var r := Place(parent, path, leaves);
    forall i | 0 <= i < |parent.children| ensures Grows(parent.children[i], r.children[i]) {
      if path == [] {
        GrowsRefl(parent.children[i]);
      } else {
        var k := FirstWithTag(parent.children, path[0]);
        if k.Some? && i == k.value {
          PlaceGrows(parent.children[i], path[1..], leaves);
        } else {
          PlaceFindsOrCreates(parent, path, leaves);
          GrowsRefl(parent.children[i]);
        }
      }
    }
  }

  /** What a path reaches in a tree it still reaches, grown, after the tree grows. */
  lemma {:induction false} FindPathGrows(a: XNode, b: XNode, path: seq<string>)
    requires Grows(a, b) && FindPath(a, path).Some?
    ensures FindPath(b, path).Some? && Grows(FindPath(a, path).value, FindPath(b, path).value)
    decreases |path|
  {
    if path != [] {
      var k := FirstWithTag(a.children, path[0]).value;
      assert FirstWithTag(b.children, path[0]) == Some(k) by {
        FirstWithSameTags(a.children, b.children, path[0]);
      }
      FindPathGrows(a.children[k], b.children[k], path[1..]);
    }
  }

  /** Same element, ignoring children. */
  predicate SameElement(a: XNode, b: XNode) {
    a.tag == b.tag && a.attrs == b.attrs && a.text == b.text
  }

  /** The children start with elements like the leaves, one for one. */
  predicate StartsLike(children: seq<XNode>, leaves: seq<XNode>) {
    |leaves| <= |children| && forall q :: 0 <= q < |leaves| ==> SameElement(children[q], leaves[q])
  }

  /** The leaves sit, one after another, among the children of `m`. */
  predicate HoldsRun(m: XNode, leaves: seq<XNode>) {
    exists p :: 0 <= p <= |m.children| && StartsLike(m.children[p..], leaves)
  }

  lemma HoldsRunGrows(m: XNode, m': XNode, leaves: seq<XNode>)
    requires HoldsRun(m, leaves) && Grows(m, m')
    ensures HoldsRun(m', leaves)
  {
    var p :| 0 <= p <= |m.children| && StartsLike(m.children[p..], leaves);
    forall q | 0 <= q < |leaves| ensures SameElement(m'.children[p..][q], leaves[q]) {
      assert m.children[p..][q] == m.children[p + q];
      assert Grows(m.children[p + q], m'.children[p + q]);
    }
    assert StartsLike(m'.children[p..], leaves);
  }

  // ---------------------------------------------------------------------------
  // Row

  /** `row[field_from]` is there and not empty. */
  predicate Given(row: TsvFile.Row, field: string) {
    field in row && row[field] != ""
  }

  /** One entry of the map applied to the study node; skipped when the row does not give its column. */
  function Step(study: XNode, e: Entry, row: TsvFile.Row): XNode {
    if Given(row, e.field) then Place(study, e.path, LeafNodes(e.leaf, row[e.field])) else study
  }

  /** The study node after the first `n` entries of the map. */
  function StudyAfter(row: TsvFile.Row, n: nat): XNode
    requires n <= |FieldMap|
  {
    if n == 0 then XNode("stdyDscr", map[], None, [])
    else Step(StudyAfter(row, n - 1), FieldMap[n - 1], row)
  }

  /** `http://www.w3.org/2001/XMLSchema-instance`. */
  const Xsi: string := "http://www.w3.org/2001/XMLSchema-instance"

  /** The attributes of `XmlRootNode()`, the schema location in lxml's `{namespace}name` form. */
  const RootAttributes: map<string, string> := map[
    "{" + Xsi + "}schemaLocation" := "http://www.icpsr.umich.edu/DDI http://www.icpsr.umich.edu/DDI/Version2-0.xsd",
    "version" := "2.0",
    "source" := Source]

  /** `XmlRootNode()`: a childless `codeBook`. */
  function XmlRootNode(): (r: XNode)
    ensures r.tag == "codeBook" && r.children == [] && "version" in r.attrs && r.attrs["version"] == "2.0" && "source" in r.attrs && r.attrs["source"] == Source
  {
    XNode("codeBook", RootAttributes, None, [])
  }

  /**
   * `Row(row)`: a `codeBook` root whose one child, `stdyDscr`, holds every
   * entry the row gives, walked in the order of the map.
   */
  method Row(row: TsvFile.Row) returns (root: XNode)
    ensures root.tag == "codeBook" && root.attrs == RootAttributes && root.text.None?
    ensures root.children == [StudyAfter(row, |FieldMap|)]
    ensures root.children[0].tag == "stdyDscr" && DistinctTags(root.children[0].children)
    ensures Marked(root)
  {
    root := XmlRootNode();
    var study := XNode("stdyDscr", map[], None, []);
    var i := 0;
    while i < |FieldMap|
      invariant 0 <= i <= |FieldMap|
      invariant study == StudyAfter(row, i)
      invariant study.tag == "stdyDscr" && DistinctTags(study.children) && Marked(study)
    {
      EntryAt(i);
      study := ApplyEntry(study, FieldMap[i], row);
      i := i + 1;
    }
    root := root.(children := root.children + [study]);
  }

  lemma EntryAt(i: nat)
    requires i < |FieldMap|
    ensures EntryShape(FieldMap[i])
  {
    FieldMapShape();
  }

  /** One pass of the `for` loop over the map: the entry placed when the row gives its column. */
  method ApplyEntry(study: XNode, e: Entry, row: TsvFile.Row) returns (r: XNode)
    requires EntryShape(e) && DistinctTags(study.children) && Marked(study)
    ensures r == Step(study, e, row)
    ensures r.tag == study.tag && DistinctTags(r.children) && Marked(r)
  {
    StepKeeps(study, e, row);
    r := study;
    if e.field in row && row[e.field] != "" {
      r := Place(study, e.path, LeafNodes(e.leaf, row[e.field]));
    }
  }

  /** One entry keeps the study's tag, its children's distinct tags and its marked citations. */
  lemma StepKeeps(study: XNode, e: Entry, row: TsvFile.Row)
    requires EntryShape(e) && DistinctTags(study.children) && Marked(study)
    ensures var r := Step(study, e, row); r.tag == study.tag && DistinctTags(r.children) && Marked(r)
  {
    if Given(row, e.field) {
      var leaves := LeafNodes(e.leaf, row[e.field]);
      PlaceKeepsDistinct(study, e.path, leaves);
      LeafNodesMarked(e.leaf, row[e.field]);
      PlaceKeepsMarked(study, e.path, leaves);
    }
  }

  /** Only the columns the map names and the row gives decide the tree. */
  lemma {:induction false} StudyIgnoresUngiven(row: TsvFile.Row, row': TsvFile.Row, n: nat)
    requires n <= |FieldMap|
    requires forall i :: 0 <= i < n ==>
      (Given(row, FieldMap[i].field) <==> Given(row', FieldMap[i].field)) &&
      (Given(row, FieldMap[i].field) ==> row[FieldMap[i].field] == row'[FieldMap[i].field])
    ensures StudyAfter(row, n) == StudyAfter(row', n)
  {
    if n > 0 {
      StudyIgnoresUngiven(row, row', n - 1);
    }
  }

  /** A row that gives none of the map's columns has an empty `stdyDscr`. */
  lemma {:induction false} EmptyStudy(row: TsvFile.Row, n: nat)
    requires n <= |FieldMap|
    requires forall i :: 0 <= i < n ==> !Given(row, FieldMap[i].field)
    ensures StudyAfter(row, n).children == []
  {
    if n > 0 {
      EmptyStudy(row, n - 1);
    }
  }

  /** The study only grows from one entry to the next. */
  lemma {:induction false} StudyGrows(row: TsvFile.Row, j: nat, n: nat)
    requires j <= n <= |FieldMap|
    ensures Grows(StudyAfter(row, j), StudyAfter(row, n))
    decreases n - j
  {
    if j == n {
      GrowsRefl(StudyAfter(row, j));
    } else {
      StudyGrows(row, j, n - 1);
      var s := StudyAfter(row, n - 1);
      var e := FieldMap[n - 1];
      if Given(row, e.field) {
        PlaceGrows(s, e.path, LeafNodes(e.leaf, row[e.field]));
      } else {
        GrowsRefl(s);
      }
      GrowsTrans(StudyAfter(row, j), s, StudyAfter(row, n));
    }
  }

  /**
   * Every entry the row gives ends up in the finished tree: its path reaches a
   * node holding the entry's leaves, for a text leaf a node whose text is the
   * row's value.
   */
  lemma RowHoldsEntry(row: TsvFile.Row, j: nat)
    requires j < |FieldMap| && Given(row, FieldMap[j].field)
    ensures var e := FieldMap[j]; var m := FindPath(StudyAfter(row, |FieldMap|), e.path);
      m.Some? && HoldsRun(m.value, LeafNodes(e.leaf, row[e.field]))
  {
    var e := FieldMap[j];
    var leaves := LeafNodes(e.leaf, row[e.field]);
    var before := StudyAfter(row, j);
    var after := StudyAfter(row, j + 1);
    PlaceThenFind(before, e.path, leaves);
    var m := FindPath(after, e.path).value;
    var p := |m.children| - |leaves|;
    assert m.children[p..] == leaves;
    assert StartsLike(m.children[p..], leaves);
    StudyGrows(row, j + 1, |FieldMap|);
    FindPathGrows(after, StudyAfter(row, |FieldMap|), e.path);
    HoldsRunGrows(m, FindPath(StudyAfter(row, |FieldMap|), e.path).value, leaves);
  }
}
