/**
 * The branching player script embedded in the exported `index.html`. It builds a node map
 * from the graph's cells, picks an entry video, and then moves through the graph: a video
 * that ends offers its text successors as options (or plays its first video successor), and
 * clicking a text option shows that option's own text successors or plays its first video
 * successor. The DOM is reduced to the video source, the option list, the creation-time line
 * and whether the error page replaced the body.
 */
module Player {
  import opened Wrappers
  import opened GraphData

  /** An entry of `nodeMap`: id, `data.type || 'unknown'`, `data.text`, and its downstream ids. */
  datatype Node = Node(id: string, kind: string, text: Option<string>, targets: seq<string>)

  const Video: string := "video"
  const Text: string := "text"
  const Unknown: string := "unknown"
  /** The label of an option whose node has no text. */
  const DefaultLabel: string := "选项"

  /** Cells that become nodes: shapes "rect" and "html". */
  predicate IsNodeCell(c: Cell) {
    c.shape == "rect" || c.shape == "html"
  }

  /** Cells that link two nodes: shape "edge" with both a source and a target. */
  predicate IsLink(c: Cell) {
    c.shape == "edge" && c.source.Some? && c.target.Some?
  }

  /** `cell.data?.type || 'unknown'`: a missing or empty type reads as "unknown". */
  function NodeKind(c: Cell): (k: string)
    ensures k != ""
    ensures c.data.Some? && c.data.value.kind.Some? && c.data.value.kind.value != "" ==> k == c.data.value.kind.value
  {
    if c.data.Some? && c.data.value.kind.Some? && c.data.value.kind.value != "" then c.data.value.kind.value
    else Unknown
  }

  /** The node a node cell makes, before any edge is attached. */
  function NodeOf(c: Cell): Node {
    Node(c.id, NodeKind(c), if c.data.Some? then c.data.value.text else None, [])
  }

  /** `nodeMap[id] && nodeMap[id].type === kind`. */
  predicate IsKind(nodes: map<string, Node>, id: string, kind: string) {
    id in nodes && nodes[id].kind == kind
  }

  /** The ids of the node cells, each once, in the order a JavaScript object enumerates them. */
  function NodeIds(cells: seq<Cell>): seq<string> {
    if cells == [] then []
    else
      var prev := NodeIds(cells[..|cells| - 1]);
      var c := cells[|cells| - 1];
      if IsNodeCell(c) && c.id !in prev then prev + [c.id] else prev
  }

  /** The first pass of `initNodeMap`: a node per node-cell id, the last such cell winning. */
  function NodeEntries(cells: seq<Cell>): map<string, Node> {
    if cells == [] then map[]
    else
      var prev := NodeEntries(cells[..|cells| - 1]);
      var c := cells[|cells| - 1];
      if IsNodeCell(c) then prev[c.id := NodeOf(c)] else prev
  }

  /** The keys list holds each node-cell id exactly once. */
  lemma {:induction false} NodeIdsMembers(cells: seq<Cell>)
    ensures forall i, j :: 0 <= i < j < |NodeIds(cells)| ==> NodeIds(cells)[i] != NodeIds(cells)[j]
    ensures forall id :: id in NodeIds(cells) <==> exists j :: 0 <= j < |cells| && IsNodeCell(cells[j]) && cells[j].id == id
    decreases |cells|
  {
    if cells != [] {
      var prefix := cells[..|cells| - 1];
      NodeIdsMembers(prefix);
      assert forall j :: 0 <= j < |prefix| ==> prefix[j] == cells[j];
    }
  }

  /** The first pass makes exactly one node per node-cell id, under that id, with no targets. */
  lemma {:induction false} NodeEntriesMembers(cells: seq<Cell>)
    ensures forall id :: id in NodeEntries(cells) <==> exists j :: 0 <= j < |cells| && IsNodeCell(cells[j]) && cells[j].id == id
    ensures forall id :: id in NodeEntries(cells) ==> NodeEntries(cells)[id].id == id && NodeEntries(cells)[id].targets == []
    decreases |cells|
  {
    if cells != [] {
      var prefix := cells[..|cells| - 1];
      NodeEntriesMembers(prefix);
      assert forall j :: 0 <= j < |prefix| ==> prefix[j] == cells[j];
    }
  }

  /** The keys list and the first pass agree on which ids are nodes. */
  lemma {:induction false} NodeIdsMatchEntries(cells: seq<Cell>)
    ensures forall id :: id in NodeIds(cells) <==> id in NodeEntries(cells)
    decreases |cells|
  {
    if cells != [] {
      NodeIdsMatchEntries(cells[..|cells| - 1]);
    }
  }

  /** One more cell: how the passes of `initNodeMap` extend from a prefix to the next. */
  lemma PrefixStep(cells: seq<Cell>, i: nat, nodes: map<string, Node>)
    requires i < |cells|
    ensures cells[..i + 1][..i] == cells[..i]
    ensures var c, prev := cells[i], NodeIds(cells[..i]);
      NodeIds(cells[..i + 1]) == if IsNodeCell(c) && c.id !in prev then prev + [c.id] else prev
    ensures var c, prev := cells[i], NodeEntries(cells[..i]);
      NodeEntries(cells[..i + 1]) == if IsNodeCell(c) then prev[c.id := NodeOf(c)] else prev
    ensures var c, prev := cells[i], Linked(nodes, cells[..i]);
      Linked(nodes, cells[..i + 1]) ==
        if IsLink(c) && c.source.value.cell in prev then
          prev[c.source.value.cell := prev[c.source.value.cell].(targets := prev[c.source.value.cell].targets + [c.target.value.cell])]
        else prev
  {
    assert cells[..i + 1][..i] == cells[..i];
  }

  /** The node of an id is made from the last node cell carrying that id. */
  lemma {:induction false} NodeEntriesLastWins(cells: seq<Cell>, id: string)
    requires id in NodeEntries(cells)
    ensures
      exists j :: 0 <= j < |cells| && IsNodeCell(cells[j]) && cells[j].id == id
        && NodeEntries(cells)[id] == NodeOf(cells[j])
        && forall l :: j < l < |cells| ==> !(IsNodeCell(cells[l]) && cells[l].id == id)
    decreases |cells|
  {
    var n := |cells| - 1;
    var prefix := cells[..n];
    var c := cells[n];
    if IsNodeCell(c) && c.id == id {
      assert NodeEntries(cells)[id] == NodeOf(cells[n]);
    } else {
      assert NodeEntries(cells) == NodeEntries(prefix) || NodeEntries(cells) == NodeEntries(prefix)[c.id := NodeOf(c)];
      assert id in NodeEntries(prefix) && NodeEntries(cells)[id] == NodeEntries(prefix)[id];
      NodeEntriesLastWins(prefix, id);
      var j :| 0 <= j < |prefix| && IsNodeCell(prefix[j]) && prefix[j].id == id
        && NodeEntries(prefix)[id] == NodeOf(prefix[j])
        && forall l :: j < l < |prefix| ==> !(IsNodeCell(prefix[l]) && prefix[l].id == id);
      assert cells[j] == prefix[j];
      assert forall l :: j < l < |cells| ==> l == n || cells[l] == prefix[l];
    }
  }

  /** The second pass of `initNodeMap`: each link whose source is a node appends its target there. */
  function Linked(nodes: map<string, Node>, cells: seq<Cell>): map<string, Node> {
    if cells == [] then nodes
    else
      var prev := Linked(nodes, cells[..|cells| - 1]);
      var c := cells[|cells| - 1];
      if IsLink(c) && c.source.value.cell in prev then
        var s := c.source.value.cell;
        prev[s := prev[s].(targets := prev[s].targets + [c.target.value.cell])]
      else prev
  }

  /** The node map `initNodeMap` builds. */
  function NodeMapOf(cells: seq<Cell>): map<string, Node> {
    Linked(NodeEntries(cells), cells)
  }

  /** The targets of the links leaving `id`, in declaration order, duplicates kept. */
  function TargetsFrom(cells: seq<Cell>, id: string): seq<string> {
    if cells == [] then []
    else
      var prev := TargetsFrom(cells[..|cells| - 1], id);
      var c := cells[|cells| - 1];
      if IsLink(c) && c.source.value.cell == id then prev + [c.target.value.cell] else prev
  }

  /** Linking keeps every node and its fields, and appends exactly the targets of its outgoing links. */
  lemma {:induction false} LinkedTargets(nodes: map<string, Node>, cells: seq<Cell>)
    ensures Linked(nodes, cells).Keys == nodes.Keys
    ensures forall id :: id in nodes ==>
      Linked(nodes, cells)[id] == nodes[id].(targets := nodes[id].targets + TargetsFrom(cells, id))
    decreases |cells|
  {
    if cells != [] {
      var prefix := cells[..|cells| - 1];
      LinkedTargets(nodes, prefix);
    }
  }

  /**
   * What `initNodeMap` builds: exactly one node per node-cell id, carrying the kind and text
   * of the last cell with that id, and as targets the targets of the links leaving it, in
   * order. Links from an id that is not a node are dropped; targets are not checked.
   */
  lemma NodeMapShape(cells: seq<Cell>)
    ensures forall id :: id in NodeMapOf(cells) <==> exists j :: 0 <= j < |cells| && IsNodeCell(cells[j]) && cells[j].id == id
    ensures forall id :: id in NodeMapOf(cells) ==>
      NodeMapOf(cells)[id].id == id && NodeMapOf(cells)[id].targets == TargetsFrom(cells, id)
    ensures forall id :: id in NodeMapOf(cells) ==>
      exists j :: 0 <= j < |cells| && IsNodeCell(cells[j]) && cells[j].id == id
        && NodeMapOf(cells)[id] == NodeOf(cells[j]).(targets := TargetsFrom(cells, id))
        && forall l :: j < l < |cells| ==> !(IsNodeCell(cells[l]) && cells[l].id == id)
  {
    NodeEntriesMembers(cells);
    LinkedTargets(NodeEntries(cells), cells);
    forall id | id in NodeMapOf(cells)
      ensures
        exists j :: 0 <= j < |cells| && IsNodeCell(cells[j]) && cells[j].id == id
          && NodeMapOf(cells)[id] == NodeOf(cells[j]).(targets := TargetsFrom(cells, id))
          && forall l :: j < l < |cells| ==> !(IsNodeCell(cells[l]) && cells[l].id == id)
    {
      NodeEntriesLastWins(cells, id);
    }
  }

  /** Without link cells no node has a target. */
  lemma {:induction false} NoLinksNoTargets(cells: seq<Cell>, id: string)
    requires forall j :: 0 <= j < |cells| ==> !IsLink(cells[j])
    ensures TargetsFrom(cells, id) == []
    decreases |cells|
  {
    if cells != [] {
      NoLinksNoTargets(cells[..|cells| - 1], id);
    }
  }

  /** The ids in `ids` that are nodes of `kind` and not in `excluded`, in order. */
  function Select(nodes: map<string, Node>, ids: seq<string>, kind: string, excluded: set<string>): (r: seq<string>)
    ensures forall x :: x in r <==> x in ids && IsKind(nodes, x, kind) && x !in excluded
    ensures |r| > 0 ==>
      exists i :: 0 <= i < |ids| && ids[i] == r[0]
        && forall j :: 0 <= j < i ==> !(IsKind(nodes, ids[j], kind) && ids[j] !in excluded)
  {
    if ids == [] then []
    else if IsKind(nodes, ids[0], kind) && ids[0] !in excluded then [ids[0]] + Select(nodes, ids[1..], kind, excluded)
    else
      var rest := Select(nodes, ids[1..], kind, excluded);
      assert |rest| > 0 ==>
        exists i :: 0 <= i < |ids[1..]| && ids[1..][i] == rest[0]
          && forall j :: 0 <= j < i ==> !(IsKind(nodes, ids[1..][j], kind) && ids[1..][j] !in excluded);
      assert forall i :: 0 <= i < |ids[1..]| ==> ids[1..][i] == ids[i + 1];
      rest
  }

  /** `ids.filter(id => nodeMap[id] && nodeMap[id].type === kind)`. */
  function OfKind(nodes: map<string, Node>, ids: seq<string>, kind: string): seq<string> {
    Select(nodes, ids, kind, {})
  }

  /** Filtering keeps the order of its input: it distributes over concatenation. */
  lemma {:induction false} SelectConcat(nodes: map<string, Node>, a: seq<string>, b: seq<string>, kind: string, excluded: set<string>)
    ensures Select(nodes, a + b, kind, excluded) == Select(nodes, a, kind, excluded) + Select(nodes, b, kind, excluded)
    decreases |a|
  {
    if a != [] {
      assert (a + b)[1..] == a[1..] + b;
      SelectConcat(nodes, a[1..], b, kind, excluded);
    } else {
      assert a + b == b;
    }
  }

  /** The ids some edge cell points at; an edge without a source counts as well. */
  function TargetIds(cells: seq<Cell>): set<string> {
    set j | 0 <= j < |cells| && cells[j].shape == "edge" && cells[j].target.Some? :: cells[j].target.value.cell
  }

  /** An edge cell with a target but no source still marks its target as pointed at. */
  lemma SourcelessEdgeCounts(nodes: map<string, Node>, cells: seq<Cell>, j: nat)
    requires j < |cells| && cells[j].shape == "edge" && cells[j].source.None? && cells[j].target.Some?
    ensures !IsEntry(nodes, cells, cells[j].target.value.cell)
  {
  }

  /** A video node nothing points at. */
  predicate IsEntry(nodes: map<string, Node>, cells: seq<Cell>, id: string) {
    IsKind(nodes, id, Video) && id !in TargetIds(cells)
  }

  /**
   * `findEntryNode`: the first video node, in `keys` order, that no edge points at; failing
   * that the first video node; with no video node, none.
   */
  function FindEntryNode(keys: seq<string>, nodes: map<string, Node>, cells: seq<Cell>): (r: Option<string>)
    ensures (exists i :: 0 <= i < |keys| && IsEntry(nodes, cells, keys[i])) ==>
      exists i :: 0 <= i < |keys| && r == Some(keys[i]) && IsEntry(nodes, cells, keys[i])
        && forall j :: 0 <= j < i ==> !IsEntry(nodes, cells, keys[j])
    ensures (forall i :: 0 <= i < |keys| ==> !IsEntry(nodes, cells, keys[i])) ==>
      (r.Some? <==> exists i :: 0 <= i < |keys| && IsKind(nodes, keys[i], Video))
    ensures (forall i :: 0 <= i < |keys| ==> !IsEntry(nodes, cells, keys[i])) && r.Some? ==>
      exists i :: 0 <= i < |keys| && r == Some(keys[i]) && IsKind(nodes, keys[i], Video)
        && forall j :: 0 <= j < i ==> !IsKind(nodes, keys[j], Video)
  {
    var entries := Select(nodes, keys, Video, TargetIds(cells));
    var videos := Select(nodes, keys, Video, {});
    if |entries| > 0 then Some(entries[0])
    else if |videos| > 0 then Some(videos[0])
    else None
  }

  /** The node map, the video paths and the creation times the page embeds. */
  datatype Graph = Graph(nodes: map<string, Node>, videoMapping: map<string, string>, creationTimes: map<string, string>)

  /**
   * What the page shows and the script remembers: `currentNodeId`, `currentDownstreamNodes`,
   * the `<video>` source, the ids behind the option elements (in order), the creation-time
   * line's text and visibility, and whether the error page replaced the body.
   */
  datatype Screen = Screen(
    current: Option<string>,
    downstream: seq<string>,
    src: Option<string>,
    options: seq<string>,
    timeText: string,
    timeShown: bool,
    failed: bool)

  /** The page as loaded: nothing playing, no options, an empty creation-time line the stylesheet hides. */
  const Initial: Screen := Screen(None, [], None, [], "", false, false)

  /** `videoMapping[id]` when it is a non-empty path. */
  predicate HasVideo(g: Graph, id: string) {
    id in g.videoMapping && g.videoMapping[id] != ""
  }

  /** `videoCreationTimes[id]`, with "" when missing. */
  function CreationTime(g: Graph, id: string): string {
    if id in g.creationTimes then g.creationTimes[id] else ""
  }

  /**
   * `playVideo(id)`. Anything but a video node changes nothing. A video node becomes current
   * with its targets downstream even when it has no video path; only with a path does the
   * source change, the creation-time line update (shown exactly when the time is non-empty)
   * and the options clear.
   */
  function Play(g: Graph, s: Screen, id: string): (t: Screen)
    ensures !IsKind(g.nodes, id, Video) ==> t == s
    ensures IsKind(g.nodes, id, Video) ==> t.current == Some(id) && t.downstream == g.nodes[id].targets
    ensures IsKind(g.nodes, id, Video) && !HasVideo(g, id) ==>
      t == s.(current := Some(id), downstream := g.nodes[id].targets)
    ensures IsKind(g.nodes, id, Video) && HasVideo(g, id) ==>
      && t.src == Some(g.videoMapping[id]) && t.options == [] && t.failed == s.failed
      && (t.timeShown <==> CreationTime(g, id) != "")
      && t.timeText == (if CreationTime(g, id) != "" then CreationTime(g, id) else s.timeText)
  {
    if !IsKind(g.nodes, id, Video) then s
    else
      var s1 := s.(current := Some(id), downstream := g.nodes[id].targets);
      if !HasVideo(g, id) then s1
      else
        var time := CreationTime(g, id);
        var s2 := if time != "" then s1.(timeText := time, timeShown := true) else s1.(timeShown := false);
        s2.(src := Some(g.videoMapping[id]), options := [])
  }

  /**
   * `showOptions(ids)`: the options clear; if `ids` holds a text node the options become
   * exactly its text nodes in order (videos among them are ignored); otherwise its first
   * video node plays; otherwise nothing more happens.
   */
  function Show(g: Graph, s: Screen, ids: seq<string>): (t: Screen)
    ensures (exists i :: 0 <= i < |ids| && IsKind(g.nodes, ids[i], Text)) ==>
      t == s.(options := OfKind(g.nodes, ids, Text))
    ensures ((forall i :: 0 <= i < |ids| ==> !IsKind(g.nodes, ids[i], Text))
      && (exists i :: 0 <= i < |ids| && IsKind(g.nodes, ids[i], Video))) ==>
      exists i :: 0 <= i < |ids| && IsKind(g.nodes, ids[i], Video)
        && (forall j :: 0 <= j < i ==> !IsKind(g.nodes, ids[j], Video))
        && t == Play(g, s.(options := []), ids[i])
    ensures (forall i :: 0 <= i < |ids| ==> !IsKind(g.nodes, ids[i], Text) && !IsKind(g.nodes, ids[i], Video)) ==>
      t == s.(options := [])
  {
    var cleared := s.(options := []);
    if |ids| == 0 then cleared
    else
      var texts := OfKind(g.nodes, ids, Text);
      if |texts| > 0 then cleared.(options := texts)
      else
        var videos := OfKind(g.nodes, ids, Video);
        if |videos| > 0 then Play(g, cleared, videos[0]) else cleared
  }

  /**
   * `handleOptionClick(id)`: only a text node acts. With a text target it shows options from
   * its targets; otherwise with a video target it plays the first one; otherwise nothing.
   */
  function Click(g: Graph, s: Screen, id: string): (t: Screen)
    ensures !IsKind(g.nodes, id, Text) ==> t == s
    ensures IsKind(g.nodes, id, Text) ==>
      var targets := g.nodes[id].targets;
      && ((exists i :: 0 <= i < |targets| && IsKind(g.nodes, targets[i], Text)) ==>
            t == s.(options := OfKind(g.nodes, targets, Text)))
      && (((forall i :: 0 <= i < |targets| ==> !IsKind(g.nodes, targets[i], Text))
            && (exists i :: 0 <= i < |targets| && IsKind(g.nodes, targets[i], Video))) ==>
            exists i :: 0 <= i < |targets| && IsKind(g.nodes, targets[i], Video)
              && (forall j :: 0 <= j < i ==> !IsKind(g.nodes, targets[j], Video))
              && t == Play(g, s, targets[i]))
      && ((forall i :: 0 <= i < |targets| ==> !IsKind(g.nodes, targets[i], Text) && !IsKind(g.nodes, targets[i], Video))
            ==> t == s)
  {
    if !IsKind(g.nodes, id, Text) then s
    else
      var targets := g.nodes[id].targets;
      var texts := OfKind(g.nodes, targets, Text);
      var videos := OfKind(g.nodes, targets, Video);
      if |texts| > 0 then Show(g, s, targets)
      else if |videos| > 0 then Play(g, s, videos[0])
      else s
  }

  /** The `ended` handler: with downstream nodes, show options from them; otherwise nothing. */
  function Ended(g: Graph, s: Screen): Screen {
    if |s.downstream| > 0 then Show(g, s, s.downstream) else s
  }

  /**
   * The `DOMContentLoaded` handler after `initNodeMap`: play the entry node, or show the error
   * page when there is none (an entry id "" is falsy and counts as none).
   */
  function Opening(g: Graph, keys: seq<string>, cells: seq<Cell>, s: Screen): Screen {
    var entry := FindEntryNode(keys, g.nodes, cells);
    if entry.Some? && entry.value != "" then Play(g, s, entry.value) else s.(failed := true)
  }

  /** The text of an option element: `node.data.text || '选项'`. */
  function Label(nodes: map<string, Node>, id: string): (l: string)
    ensures l != ""
  {
    if id in nodes && nodes[id].text.Some? && nodes[id].text.value != "" then nodes[id].text.value else DefaultLabel
  }

  /** The labels of the option elements shown, in order. */
  function Labels(g: Graph, s: Screen): (r: seq<string>)
    ensures |r| == |s.options|
    ensures forall i :: 0 <= i < |r| ==> r[i] == Label(g.nodes, s.options[i]) && r[i] != ""
  {
    seq(|s.options|, i requires 0 <= i < |s.options| => Label(g.nodes, s.options[i]))
  }

  /**
   * What the page keeps true: a current node is a video node whose targets are downstream
   * (nothing current, nothing downstream), every option is a text node, and the video source
   * is one of the embedded video paths; the creation-time line is visible only with a text.
   */
  predicate Coherent(g: Graph, s: Screen) {
    && (s.current.Some? ==> IsKind(g.nodes, s.current.value, Video) && s.downstream == g.nodes[s.current.value].targets)
    && (s.current.None? ==> s.downstream == [])
    && (forall i :: 0 <= i < |s.options| ==> IsKind(g.nodes, s.options[i], Text))
    && (s.src.Some? ==> exists id :: id in g.videoMapping && g.videoMapping[id] == s.src.value)
    && (s.timeShown ==> s.timeText != "")
  }

  lemma InitialCoherent(g: Graph)
    ensures Coherent(g, Initial)
  {
  }

  lemma PlayCoherent(g: Graph, s: Screen, id: string)
    requires Coherent(g, s)
    ensures Coherent(g, Play(g, s, id))
  {
  }

  lemma ShowCoherent(g: Graph, s: Screen, ids: seq<string>)
    requires Coherent(g, s)
    ensures Coherent(g, Show(g, s, ids))
  {
    var cleared := s.(options := []);
    assert Coherent(g, cleared);
    if |ids| > 0 && |OfKind(g.nodes, ids, Text)| == 0 && |OfKind(g.nodes, ids, Video)| > 0 {
      PlayCoherent(g, cleared, OfKind(g.nodes, ids, Video)[0]);
    }
  }

  lemma ClickCoherent(g: Graph, s: Screen, id: string)
    requires Coherent(g, s)
    ensures Coherent(g, Click(g, s, id))
  {
    if IsKind(g.nodes, id, Text) {
      var targets := g.nodes[id].targets;
      ShowCoherent(g, s, targets);
      var videos := OfKind(g.nodes, targets, Video);
      if |videos| > 0 {
        PlayCoherent(g, s, videos[0]);
      }
    }
  }

  lemma EndedCoherent(g: Graph, s: Screen)
    requires Coherent(g, s)
    ensures Coherent(g, Ended(g, s))
  {
    ShowCoherent(g, s, s.downstream);
  }

  lemma OpeningCoherent(g: Graph, keys: seq<string>, cells: seq<Cell>, s: Screen)
    requires Coherent(g, s)
    ensures Coherent(g, Opening(g, keys, cells, s))
  {
    var entry := FindEntryNode(keys, g.nodes, cells);
    if entry.Some? && entry.value != "" {
      PlayCoherent(g, s, entry.value);
    }
  }

  /** Without a video node among the keys, loading shows the error page and changes nothing else. */
  lemma NoVideoNodeFails(g: Graph, keys: seq<string>, cells: seq<Cell>, s: Screen)
    requires forall i :: 0 <= i < |keys| ==> !IsKind(g.nodes, keys[i], Video)
    ensures Opening(g, keys, cells, s) == s.(failed := true)
  {
    assert FindEntryNode(keys, g.nodes, cells).None?;
  }

  /**
   * When a video with text successors ends, the options offered are exactly those successors,
   * in the order its links were declared, and playback state is untouched.
   */
  lemma EndedOffersTextSuccessors(g: Graph, s: Screen)
    requires Coherent(g, s) && s.current.Some?
    requires exists i :: 0 <= i < |s.downstream| && IsKind(g.nodes, s.downstream[i], Text)
    ensures Ended(g, s).options == OfKind(g.nodes, g.nodes[s.current.value].targets, Text)
    ensures Ended(g, s).current == s.current && Ended(g, s).src == s.src
  {
  }

  /** Every option the ended handler offers is a text successor of the video that ended. */
  lemma {:induction false} EndedOptionsAreSuccessors(g: Graph, s: Screen)
    requires Coherent(g, s) && s.current.Some?
    ensures Ended(g, s).current == s.current ==>
      forall o :: o in Ended(g, s).options ==> o in s.options || (o in g.nodes[s.current.value].targets && IsKind(g.nodes, o, Text))
  {
    var t := Ended(g, s);
    if |s.downstream| > 0 {
      var texts := OfKind(g.nodes, s.downstream, Text);
      if |texts| == 0 {
        var videos := OfKind(g.nodes, s.downstream, Video);
        if |videos| > 0 {
          assert t == Play(g, s.(options := []), videos[0]);
        } else {
          assert t.options == [];
        }
      }
    }
  }

  /**
   * A three-node chain: video `a` links to the choice `t` (captioned `caption`), which links to
   * video `b`; `a` has the video path `pathA` and the creation time `timeA`, `b` the path
   * `pathB` and an empty creation time.
   */
  datatype Chain = Chain(a: string, t: string, b: string, caption: string, pathA: string, pathB: string, timeA: string)

  /** The ids are distinct, `a` is not the falsy "", and the caption, paths and time are non-empty. */
  predicate ChainShaped(ch: Chain) {
    ch.a != "" && ch.a != ch.t && ch.t != ch.b && ch.a != ch.b && ch.caption != "" && ch.pathA != "" && ch.pathB != "" && ch.timeA != ""
  }

  /** The graph cells of a chain: three node cells, then the two links. */
  function ChainCells(ch: Chain): seq<Cell> {
    [Cell(ch.a, "rect", Some(CellData(Some(Video), None)), None, None),
     Cell(ch.t, "html", Some(CellData(Some(Text), Some(ch.caption))), None, None),
     Cell(ch.b, "rect", Some(CellData(Some(Video), None)), None, None),
     Cell("e1", "edge", None, Some(Endpoint(ch.a)), Some(Endpoint(ch.t))),
     Cell("e2", "edge", None, Some(Endpoint(ch.t)), Some(Endpoint(ch.b)))]
  }

  /** The nodes of a chain before linking. */
  function ChainEntries(ch: Chain): map<string, Node> {
    map[ch.a := Node(ch.a, Video, None, []), ch.t := Node(ch.t, Text, Some(ch.caption), []), ch.b := Node(ch.b, Video, None, [])]
  }

  lemma ChainIds(ch: Chain)
    requires ChainShaped(ch)
    ensures NodeIds(ChainCells(ch)) == [ch.a, ch.t, ch.b]
  {
    var cells := ChainCells(ch);
    var c1, c2, c3, c4 := cells[..1], cells[..2], cells[..3], cells[..4];
    assert c1[..0] == [] && c2[..1] == c1 && c3[..2] == c2 && c4[..3] == c3 && cells[..4] == c4;
    assert NodeIds(c1) == [ch.a];
    assert NodeIds(c2) == [ch.a, ch.t];
    assert NodeIds(c3) == [ch.a, ch.t, ch.b];
    assert NodeIds(c4) == [ch.a, ch.t, ch.b];
  }

  lemma ChainNodeEntries(ch: Chain)
    requires ChainShaped(ch)
    ensures NodeEntries(ChainCells(ch)) == ChainEntries(ch)
  {
    var cells := ChainCells(ch);
    var c1, c2, c3, c4 := cells[..1], cells[..2], cells[..3], cells[..4];
    assert c1[..0] == [] && c2[..1] == c1 && c3[..2] == c2 && c4[..3] == c3 && cells[..4] == c4;
    assert NodeEntries(c1) == map[ch.a := NodeOf(cells[0])];
    assert NodeEntries(c2) == map[ch.a := NodeOf(cells[0]), ch.t := NodeOf(cells[1])];
    assert NodeEntries(c3) == ChainEntries(ch);
    assert NodeEntries(c4) == ChainEntries(ch);
  }

  /** The node map `initNodeMap` builds for a chain. */
  lemma ChainNodeMap(ch: Chain)
    requires ChainShaped(ch)
    ensures var nodes := NodeMapOf(ChainCells(ch));
      && nodes.Keys == {ch.a, ch.t, ch.b}
      && nodes[ch.a] == Node(ch.a, Video, None, [ch.t])
      && nodes[ch.t] == Node(ch.t, Text, Some(ch.caption), [ch.b])
      && nodes[ch.b] == Node(ch.b, Video, None, [])
  {
    ChainNodeEntries(ch);
    var cells, e := ChainCells(ch), ChainEntries(ch);
    var c1, c2, c3, c4 := cells[..1], cells[..2], cells[..3], cells[..4];
    assert c1[..0] == [] && c2[..1] == c1 && c3[..2] == c2 && c4[..3] == c3 && cells[..4] == c4;
    assert Linked(e, c1) == e;
    assert Linked(e, c2) == e;
    assert Linked(e, c3) == e;
    var l1, l2 := cells[3], cells[4];
    assert IsLink(l1) && l1.source.value.cell == ch.a && l1.target.value.cell == ch.t;
    assert IsLink(l2) && l2.source.value.cell == ch.t && l2.target.value.cell == ch.b;
    assert ch.a in e && e[ch.a].targets + [ch.t] == [ch.t];
    var m4 := e[ch.a := e[ch.a].(targets := [ch.t])];
    assert Linked(e, c4) == m4;
    assert ch.t in m4 && m4[ch.t] == e[ch.t] && m4[ch.t].targets + [ch.b] == [ch.b];
    assert Linked(e, cells) == m4[ch.t := m4[ch.t].(targets := [ch.b])];
  }

  /** The page model of a chain. */
  function ChainGraph(ch: Chain): Graph {
    Graph(NodeMapOf(ChainCells(ch)), map[ch.a := ch.pathA, ch.b := ch.pathB], map[ch.a := ch.timeA, ch.b := ""])
  }

  lemma ChainTargetIds(ch: Chain)
    ensures TargetIds(ChainCells(ch)) == {ch.t, ch.b}
  {
    var cells := ChainCells(ch);
    assert cells[3].target.value.cell == ch.t && cells[4].target.value.cell == ch.b;
  }

  /** `a` is the first video nothing points at. */
  lemma ChainEntry(ch: Chain)
    requires ChainShaped(ch)
    ensures FindEntryNode([ch.a, ch.t, ch.b], NodeMapOf(ChainCells(ch)), ChainCells(ch)) == Some(ch.a)
  {
    ChainNodeMap(ch);
    ChainTargetIds(ch);
    var nodes, ids, excluded := NodeMapOf(ChainCells(ch)), [ch.a, ch.t, ch.b], {ch.t, ch.b};
    assert ids[1..] == [ch.t, ch.b] && ids[1..][1..] == [ch.b] && ids[1..][1..][1..] == [];
    assert Select(nodes, [ch.b], Video, excluded) == [];
    assert Select(nodes, [ch.t, ch.b], Video, excluded) == [];
    assert Select(nodes, ids, Video, excluded) == [ch.a];
  }

  /** The page opens by playing `a`, its time shown, with `t` downstream. */
  lemma ChainOpening(ch: Chain)
    requires ChainShaped(ch)
    ensures Opening(ChainGraph(ch), NodeIds(ChainCells(ch)), ChainCells(ch), Initial)
         == Screen(Some(ch.a), [ch.t], Some(ch.pathA), [], ch.timeA, true, false)
  {
    ChainIds(ch);
    ChainNodeMap(ch);
    ChainEntry(ch);
    var g, cells := ChainGraph(ch), ChainCells(ch);
    assert FindEntryNode(NodeIds(cells), g.nodes, cells) == Some(ch.a);
    assert Opening(g, NodeIds(cells), cells, Initial) == Play(g, Initial, ch.a);
  }

  /** When `a` ends, its text successor `t` is offered under its caption. */
  lemma ChainEnded(ch: Chain)
    requires ChainShaped(ch)
    ensures Ended(ChainGraph(ch), Screen(Some(ch.a), [ch.t], Some(ch.pathA), [], ch.timeA, true, false))
         == Screen(Some(ch.a), [ch.t], Some(ch.pathA), [ch.t], ch.timeA, true, false)
    ensures Labels(ChainGraph(ch), Screen(Some(ch.a), [ch.t], Some(ch.pathA), [ch.t], ch.timeA, true, false)) == [ch.caption]
  {
    ChainNodeMap(ch);
    assert [ch.t][1..] == [];
    assert OfKind(ChainGraph(ch).nodes, [ch.t], Text) == [ch.t];
  }

  /** Clicking `t` plays `b`; `b` has no creation time, so the line is hidden. */
  lemma ChainClick(ch: Chain)
    requires ChainShaped(ch)
    ensures Click(ChainGraph(ch), Screen(Some(ch.a), [ch.t], Some(ch.pathA), [ch.t], ch.timeA, true, false), ch.t)
         == Screen(Some(ch.b), [], Some(ch.pathB), [], ch.timeA, false, false)
  {
    ChainNodeMap(ch);
    var nodes := ChainGraph(ch).nodes;
    assert [ch.b][1..] == [];
    assert OfKind(nodes, [ch.b], Text) == [] && OfKind(nodes, [ch.b], Video) == [ch.b];
  }

  /** The embedded player: the page's constants and the script's mutable state. */
  class Page {
    const cells: seq<Cell>
    const videoMapping: map<string, string>
    const creationTimes: map<string, string>
    /** `nodeMap`: its keys in enumeration order, and its entries. */
    var keys: seq<string>
    var nodes: map<string, Node>
    var currentNodeId: Option<string>
    var currentDownstreamNodes: seq<string>
    var src: Option<string>
    var options: seq<string>
    var timeText: string
    var timeShown: bool
    var failed: bool

    constructor (document: PlayerDocument)
      ensures cells == document.graph && videoMapping == document.videoMapping
      ensures creationTimes == document.creationTimes
      ensures keys == [] && nodes == map[] && State() == Initial
    {
      cells := document.graph;
      videoMapping := document.videoMapping;
      creationTimes := document.creationTimes;
      keys, nodes := [], map[];
      currentNodeId, currentDownstreamNodes, src, options := None, [], None, [];
      timeText, timeShown, failed := "", false, false;
    }

    function State(): Screen
      reads this
    {
      Screen(currentNodeId, currentDownstreamNodes, src, options, timeText, timeShown, failed)
    }

    function Model(): Graph
      reads this
    {
      Graph(nodes, videoMapping, creationTimes)
    }

    /** The node map is the one the cells define. */
    predicate Valid()
      reads this
    {
      keys == NodeIds(cells) && nodes == NodeMapOf(cells)
    }

    /** `initNodeMap()` on the empty map: a pass adding the nodes, then a pass adding the links. */
    method InitNodeMap()
      requires keys == [] && nodes == map[]
      modifies this
      ensures Valid() && State() == old(State())
    {
      for i := 0 to |cells|
        invariant keys == NodeIds(cells[..i]) && nodes == NodeEntries(cells[..i])
        invariant State() == old(State())
      {
        var cell := cells[i];
        PrefixStep(cells, i, map[]);
        NodeIdsMatchEntries(cells[..i]);
        if IsNodeCell(cell) {
          if cell.id !in nodes {
            keys := keys + [cell.id];
          }
          nodes := nodes[cell.id := NodeOf(cell)];
        }
      }
      assert cells[..|cells|] == cells;
      ghost var entries := nodes;
      for i := 0 to |cells|
        invariant keys == NodeIds(cells) && entries == NodeEntries(cells)
        invariant nodes == Linked(entries, cells[..i])
        invariant State() == old(State())
      {
        var cell := cells[i];
        PrefixStep(cells, i, entries);
        if IsLink(cell) && cell.source.value.cell in nodes {
          var s := cell.source.value.cell;
          nodes := nodes[s := nodes[s].(targets := nodes[s].targets + [cell.target.value.cell])];
        }
      }
      assert cells[..|cells|] == cells;
    }

    /** `playVideo(id)`. */
    method PlayVideo(id: string)
      modifies this
      ensures keys == old(keys) && nodes == old(nodes)
      ensures State() == Play(Model(), old(State()), id)
    {
      if !(id in nodes && nodes[id].kind == Video) {
        return;
      }
      currentNodeId := Some(id);
      currentDownstreamNodes := nodes[id].targets;
      if !(id in videoMapping && videoMapping[id] != "") {
        return;
      }
      src := Some(videoMapping[id]);
      var creationTime := if id in creationTimes then creationTimes[id] else "";
      if creationTime != "" {
        timeText := creationTime;
        timeShown := true;
      } else {
        timeShown := false;
      }
      options := [];
    }

    /** `showOptions(ids)`, with the delayed auto-play taken as immediate. */
    method ShowOptions(ids: seq<string>)
      modifies this
      ensures keys == old(keys) && nodes == old(nodes)
      ensures State() == Show(Model(), old(State()), ids)
    {
      options := [];
      if |ids| == 0 {
        return;
      }
      var textNodes := OfKind(nodes, ids, Text);
      if |textNodes| > 0 {
        options := textNodes;
      } else {
        var videoNodes := OfKind(nodes, ids, Video);
        if |videoNodes| > 0 {
          PlayVideo(videoNodes[0]);
        }
      }
    }

    /** `handleOptionClick(id)`. */
    method HandleOptionClick(id: string)
      modifies this
      ensures keys == old(keys) && nodes == old(nodes)
      ensures State() == Click(Model(), old(State()), id)
    {
      if id !in nodes {
        return;
      }
      var targets := nodes[id].targets;
      if nodes[id].kind == Text {
        var textTargets := OfKind(nodes, targets, Text);
        var videoTargets := OfKind(nodes, targets, Video);
        if |textTargets| > 0 {
          ShowOptions(targets);
        } else if |videoTargets| > 0 {
          PlayVideo(videoTargets[0]);
        }
      }
    }

    /** The `ended` listener of the video element. */
    method OnEnded()
      modifies this
      ensures keys == old(keys) && nodes == old(nodes)
      ensures State() == Ended(Model(), old(State()))
    {
      if |currentDownstreamNodes| > 0 {
        ShowOptions(currentDownstreamNodes);
      }
    }

    /** The `DOMContentLoaded` listener: build the node map, then play the entry or fail. */
    method OnLoaded()
      requires keys == [] && nodes == map[]
      modifies this
      ensures Valid()
      ensures State() == Opening(Model(), keys, cells, old(State()))
    {
      InitNodeMap();
      var entryNodeId := FindEntryNode(keys, nodes, cells);
      if entryNodeId.Some? && entryNodeId.value != "" {
        PlayVideo(entryNodeId.value);
      } else {
        failed := true;
      }
    }
  }
}
