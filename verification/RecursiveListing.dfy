/** `ls -R` of python_shell.py: an explicit stack against the recursive pre-order walk. */
module RecursiveListing {
  import opened Prelude

  type Path = seq<string>

  /** A directory entry; children stand in the order in which they are listed. */
  datatype Node = File(name: string) | Link(name: string) | Dir(name: string, children: seq<Node>)

  predicate Shown(n: Node, showAll: bool) {
    showAll || n.name == "" || n.name[0] != '.'
  }

  /** The entries of a directory without the hidden ones. */
  function Entries(children: seq<Node>, showAll: bool): (r: seq<Node>)
    ensures forall n :: n in r <==> n in children && Shown(n, showAll)
  {
    if children == [] then []
    else (if Shown(children[0], showAll) then [children[0]] else []) + Entries(children[1..], showAll)
  }

  /** One block of output: the header (none for a target that is no directory) and the names below it. */
  datatype Section = Section(header: Option<Path>, names: seq<string>)

  function NamesOf(nodes: seq<Node>): seq<string> {
    seq(|nodes|, i requires 0 <= i < |nodes| => nodes[i].name)
  }

  function SectionOf(path: Path, dir: Node, showAll: bool): Section
    requires dir.Dir?
  {
    Section(Some(path), NamesOf(Entries(dir.children, showAll)))
  }

  /** The pre-order walk: the directory itself, then its real sub-directories one after another. */
  function Walk(path: Path, dir: Node, showAll: bool): seq<Section>
    requires dir.Dir?
    decreases dir, 1, 0
  {
    [SectionOf(path, dir, showAll)] + WalkAll(path, dir, Entries(dir.children, showAll), showAll)
  }

  function WalkAll(path: Path, parent: Node, nodes: seq<Node>, showAll: bool): seq<Section>
    requires parent.Dir? && forall n :: n in nodes ==> n in parent.children
    decreases parent, 0, |nodes|
  {
    if nodes == [] then []
    else
      assert nodes[0] in parent.children;
      (if nodes[0].Dir? then Walk(path + [nodes[0].name], nodes[0], showAll) else [])
        + WalkAll(path, parent, nodes[1..], showAll)
  }

  // ---------------------------------------------------------------- the stack

  datatype Pending = Pending(path: Path, dir: Node)

  ghost predicate AllDirs(stack: seq<Pending>) {
    forall p :: p in stack ==> p.dir.Dir?
  }

  /** What a stack still stands for: the walks of its entries, the top one first. */
  ghost function WalkStack(stack: seq<Pending>, showAll: bool): seq<Section>
    requires AllDirs(stack)
  {
    if stack == [] then []
    else
      var top := stack[|stack| - 1];
      assert top in stack;
      Walk(top.path, top.dir, showAll) + WalkStack(stack[..|stack| - 1], showAll)
  }

  lemma WalkStackPush(stack: seq<Pending>, top: Pending, showAll: bool)
    requires AllDirs(stack) && top.dir.Dir?
    ensures AllDirs(stack + [top])
    ensures WalkStack(stack + [top], showAll) == Walk(top.path, top.dir, showAll) + WalkStack(stack, showAll)
  {
    hide Walk;
    assert (stack + [top])[..|stack|] == stack;
  }

  /** Pushing the entries from the last to the first leaves the first one on top. */
  method PushSubDirs(stack: seq<Pending>, path: Path, parent: Node, entries: seq<Node>, showAll: bool)
    returns (pushed: seq<Pending>)
    requires AllDirs(stack) && parent.Dir? && forall n :: n in entries ==> n in parent.children
    ensures AllDirs(pushed)
    ensures WalkStack(pushed, showAll) == WalkAll(path, parent, entries, showAll) + WalkStack(stack, showAll)
  {
    hide Walk;
    pushed := stack;
    var i := |entries|;
    assert entries[i..] == [];
    while i > 0
      invariant 0 <= i <= |entries| && AllDirs(pushed)
      invariant WalkStack(pushed, showAll) == WalkAll(path, parent, entries[i..], showAll) + WalkStack(stack, showAll)
    {
      i := i - 1;
      assert entries[i..][1..] == entries[i + 1..];
      if entries[i].Dir? {
        var next := Pending(path + [entries[i].name], entries[i]);
        WalkStackPush(pushed, next, showAll);
        pushed := pushed + [next];
      }
    }
    assert entries[0..] == entries;
  }

  /** The explicit-stack loop over the targets yields exactly the sections of the recursive walk. */
  method LsRecursive(targets: seq<Pending>, showAll: bool) returns (sections: seq<Section>)
    ensures sections == Listing(targets, showAll)
  {
    hide Walk, WalkAll, Entries;
    sections := [];
    var t := 0;
    while t < |targets|
      invariant 0 <= t <= |targets|
      invariant sections == Listing(targets[..t], showAll)
    {
      var target := targets[t];
      assert targets[..t + 1][..t] == targets[..t];
      t := t + 1;
      if !target.dir.Dir? {
        sections := sections + [Section(None, [target.dir.name])];
        continue;
      }
      ghost var before := sections;
      var stack := [target];
      OneOnStack(target, showAll);
      while stack != []
        invariant AllDirs(stack)
        invariant sections + WalkStack(stack, showAll) == before + Walk(target.path, target.dir, showAll)
        decreases |WalkStack(stack, showAll)|
      {
        var current := stack[|stack| - 1];
        assert current in stack;
        ghost var below := stack[..|stack| - 1];
        stack := stack[..|stack| - 1];
        var entries := Entries(current.dir.children, showAll);
        EntriesAreChildren(current.dir, showAll);
        sections := sections + [SectionOf(current.path, current.dir, showAll)];
        WalkUnfold(current.path, current.dir, showAll);
        stack := PushSubDirs(stack, current.path, current.dir, entries, showAll);
      }
    }
    assert targets[..t] == targets;
  }

  lemma OneOnStack(target: Pending, showAll: bool)
    requires target.dir.Dir?
    ensures WalkStack([target], showAll) == Walk(target.path, target.dir, showAll)
  {
    hide Walk;
    assert [target][..0] == [];
  }

  lemma EntriesAreChildren(dir: Node, showAll: bool)
    requires dir.Dir?
    ensures forall n :: n in Entries(dir.children, showAll) ==> n in dir.children
  {
  }

  lemma WalkUnfold(path: Path, dir: Node, showAll: bool)
    requires dir.Dir?
    ensures Walk(path, dir, showAll) ==
      [SectionOf(path, dir, showAll)] + WalkAll(path, dir, Entries(dir.children, showAll), showAll)
  {
  }

  /** The reference: every target's walk, or a bare name. */
  function Listing(targets: seq<Pending>, showAll: bool): seq<Section> {
    if targets == [] then []
    else
      var last := targets[|targets| - 1];
      Listing(targets[..|targets| - 1], showAll)
        + if last.dir.Dir? then Walk(last.path, last.dir, showAll) else [Section(None, [last.dir.name])]
  }

  /** Targets are listed one after another. */
  lemma {:induction false} ListingJoins(a: seq<Pending>, b: seq<Pending>, showAll: bool)
    ensures Listing(a + b, showAll) == Listing(a, showAll) + Listing(b, showAll)
    decreases |b|
  {
    hide Walk;
    if b == [] {
      assert a + b == a;
    } else {
      assert (a + b)[..|a + b| - 1] == a + b[..|b| - 1];
      ListingJoins(a, b[..|b| - 1], showAll);
    }
  }

  lemma ListingOfOne(t: Pending, showAll: bool)
    ensures Listing([t], showAll) == if t.dir.Dir? then Walk(t.path, t.dir, showAll) else [Section(None, [t.dir.name])]
  {
    hide Walk;
    assert [t][..0] == [];
  }

  // ---------------------------------------------------------------- what the walk visits

  /** The relative path leads down from the directory through real sub-directories that are shown. */
  ghost predicate Visits(dir: Node, rel: Path, showAll: bool)
    requires dir.Dir?
    decreases |rel|
  {
    rel == [] || exists n :: n in Entries(dir.children, showAll) && n.Dir? && n.name == rel[0] && Visits(n, rel[1..], showAll)
  }

  ghost predicate HasHeader(sections: seq<Section>, path: Path) {
    exists i :: 0 <= i < |sections| && sections[i].header == Some(path)
  }

  lemma HeaderOfParts(a: seq<Section>, b: seq<Section>, path: Path)
    ensures HasHeader(a + b, path) <==> HasHeader(a, path) || HasHeader(b, path)
  {
    if HasHeader(a, path) {
      var i :| 0 <= i < |a| && a[i].header == Some(path);
      assert (a + b)[i].header == Some(path);
    }
    if HasHeader(b, path) {
      var i :| 0 <= i < |b| && b[i].header == Some(path);
      assert (a + b)[|a| + i].header == Some(path);
    }
  }

  /** The headers of a walk are exactly the shown real directories below it, however deep. */
  lemma {:induction false} WalkVisits(path: Path, dir: Node, rel: Path, showAll: bool)
    requires dir.Dir?
    ensures HasHeader(Walk(path, dir, showAll), path + rel) <==> Visits(dir, rel, showAll)
    decreases dir, 1, 0
  {
    hide Walk, WalkAll, Entries;
    var entries := Entries(dir.children, showAll);
    EntriesAreChildren(dir, showAll);
    WalkUnfold(path, dir, showAll);
    var own := [SectionOf(path, dir, showAll)];
    HeaderOfParts(own, WalkAll(path, dir, entries, showAll), path + rel);
    assert own[0].header == Some(path);
    WalkAllVisits(path, dir, entries, rel, showAll);
    if rel == [] {
      assert path + rel == path;
    } else {
      assert |path + rel| > |path|;
    }
  }

  lemma {:induction false} WalkAllVisits(path: Path, parent: Node, nodes: seq<Node>, rel: Path, showAll: bool)
    requires parent.Dir? && forall n :: n in nodes ==> n in parent.children
    ensures HasHeader(WalkAll(path, parent, nodes, showAll), path + rel) <==>
      rel != [] && exists n :: n in nodes && n.Dir? && n.name == rel[0] && Visits(n, rel[1..], showAll)
    decreases parent, 0, |nodes|
  {
    hide Walk, Visits;
    if nodes != [] {
      var first := nodes[0];
      assert first in parent.children;
      WalkAllVisits(path, parent, nodes[1..], rel, showAll);
      var head := if first.Dir? then Walk(path + [first.name], first, showAll) else [];
      HeaderOfParts(head, WalkAll(path, parent, nodes[1..], showAll), path + rel);
      if first.Dir? {
        if rel != [] && rel[0] == first.name {
          assert path + rel == path + [first.name] + rel[1..];
          WalkVisits(path + [first.name], first, rel[1..], showAll);
        } else {
          WalkIsBelow(path + [first.name], first, showAll);
          NotBelow(path, first.name, rel);
        }
      }
    }
  }

  lemma NotBelow(path: Path, name: string, rel: Path)
    requires rel == [] || rel[0] != name
    ensures !(path + [name] <= path + rel)
  {
    assert (path + [name])[|path|] == name;
    if rel != [] {
      assert (path + rel)[|path|] == rel[0];
    }
  }

  lemma {:induction false} WalkIsBelow(path: Path, dir: Node, showAll: bool)
    requires dir.Dir?
    ensures forall i :: 0 <= i < |Walk(path, dir, showAll)| ==>
      Walk(path, dir, showAll)[i].header.Some? && path <= Walk(path, dir, showAll)[i].header.value
    decreases dir, 1, 0
  {
    hide WalkAll, Entries;
    EntriesAreChildren(dir, showAll);
    WalkUnfold(path, dir, showAll);
    WalkAllIsBelow(path, dir, Entries(dir.children, showAll), showAll);
  }

  /** The section belongs to one of the given sub-directories. */
  ghost predicate ComesFrom(path: Path, nodes: seq<Node>, s: Section) {
    s.header.Some? && exists n :: n in nodes && n.Dir? && path + [n.name] <= s.header.value
  }

  lemma {:induction false} WalkAllIsBelow(path: Path, parent: Node, nodes: seq<Node>, showAll: bool)
    requires parent.Dir? && forall n :: n in nodes ==> n in parent.children
    ensures forall i :: 0 <= i < |WalkAll(path, parent, nodes, showAll)| ==>
      ComesFrom(path, nodes, WalkAll(path, parent, nodes, showAll)[i])
    ensures forall i :: 0 <= i < |WalkAll(path, parent, nodes, showAll)| ==>
      WalkAll(path, parent, nodes, showAll)[i].header.Some? && path <= WalkAll(path, parent, nodes, showAll)[i].header.value
    decreases parent, 0, |nodes|
  {
    hide Walk;
    if nodes != [] {
      var first := nodes[0];
      assert first in parent.children && first in nodes;
      WalkAllIsBelow(path, parent, nodes[1..], showAll);
      if first.Dir? {
        WalkIsBelow(path + [first.name], first, showAll);
      }
      var all := WalkAll(path, parent, nodes, showAll);
      var rest := WalkAll(path, parent, nodes[1..], showAll);
      var split := |all| - |rest|;
      forall i | 0 <= i < |all|
        ensures ComesFrom(path, nodes, all[i])
      {
        if i < split {
          assert path + [first.name] <= all[i].header.value;
        } else {
          assert all[i] == rest[i - split];
          assert ComesFrom(path, nodes[1..], rest[i - split]);
          var n :| n in nodes[1..] && n.Dir? && path + [n.name] <= rest[i - split].header.value;
          assert n in nodes;
        }
      }
      forall i | 0 <= i < |all| ensures path <= all[i].header.value {
        assert ComesFrom(path, nodes, all[i]);
        var n :| n in nodes && n.Dir? && path + [n.name] <= all[i].header.value;
        assert path <= path + [n.name];
      }
    }
  }

  /** No directory holds two entries of one name. */
  ghost predicate UniqueNames(n: Node)
    decreases n
  {
    n.Dir? ==>
      && (forall i, j :: 0 <= i < j < |n.children| ==> n.children[i].name != n.children[j].name)
      && (forall c :: c in n.children ==> UniqueNames(c))
  }

  ghost predicate NoneTwice(sections: seq<Section>) {
    forall i, j :: 0 <= i < j < |sections| ==> sections[i].header != sections[j].header
  }

  ghost predicate DistinctNames(nodes: seq<Node>) {
    forall i, j :: 0 <= i < j < |nodes| ==> nodes[i].name != nodes[j].name
  }

  lemma {:induction false} EntriesDistinct(children: seq<Node>, showAll: bool)
    requires DistinctNames(children)
    ensures DistinctNames(Entries(children, showAll))
  {
    if children != [] {
      EntriesDistinct(children[1..], showAll);
      var rest := Entries(children[1..], showAll);
      forall i | 0 <= i < |rest| ensures rest[i].name != children[0].name {
        assert rest[i] in rest && rest[i] in children[1..];
        var k :| 0 <= k < |children[1..]| && children[1..][k] == rest[i];
        assert children[k + 1].name != children[0].name;
      }
    }
  }

  /** Every shown real directory is listed once. */
  lemma {:induction false} WalkOnce(path: Path, dir: Node, showAll: bool)
    requires dir.Dir? && UniqueNames(dir)
    ensures NoneTwice(Walk(path, dir, showAll))
    decreases dir, 1, 0
  {
    hide Walk, WalkAll, Entries;
    var entries := Entries(dir.children, showAll);
    EntriesAreChildren(dir, showAll);
    EntriesDistinct(dir.children, showAll);
    WalkUnfold(path, dir, showAll);
    WalkAllOnce(path, dir, entries, showAll);
    WalkAllIsBelow(path, dir, entries, showAll);
    var rest := WalkAll(path, dir, entries, showAll);
    forall i | 0 <= i < |rest| ensures rest[i].header != Some(path) {
      assert ComesFrom(path, entries, rest[i]);
      var n :| n in entries && n.Dir? && path + [n.name] <= rest[i].header.value;
      assert |rest[i].header.value| > |path|;
    }
  }

  lemma {:induction false} WalkAllOnce(path: Path, parent: Node, nodes: seq<Node>, showAll: bool)
    requires parent.Dir? && UniqueNames(parent) && forall n :: n in nodes ==> n in parent.children
    requires DistinctNames(nodes)
    ensures NoneTwice(WalkAll(path, parent, nodes, showAll))
    decreases parent, 0, |nodes|
  {
    hide Walk;
    if nodes != [] {
      var first := nodes[0];
      assert first in parent.children;
      var rest := WalkAll(path, parent, nodes[1..], showAll);
      WalkAllOnce(path, parent, nodes[1..], showAll);
      if first.Dir? {
        WalkOnce(path + [first.name], first, showAll);
        WalkIsBelow(path + [first.name], first, showAll);
        WalkAllIsBelow(path, parent, nodes[1..], showAll);
        var head := Walk(path + [first.name], first, showAll);
        assert WalkAll(path, parent, nodes, showAll) == head + rest;
        forall i, j | 0 <= i < |head| && 0 <= j < |rest| ensures head[i].header != rest[j].header {
          assert ComesFrom(path, nodes[1..], rest[j]);
          var n :| n in nodes[1..] && n.Dir? && path + [n.name] <= rest[j].header.value;
          Apart(path, first.name, n.name, head[i].header.value, rest[j].header.value, nodes, n);
        }
        JoinNoneTwice(head, rest);
      } else {
        assert WalkAll(path, parent, nodes, showAll) == [] + rest == rest;
      }
    }
  }

  lemma Apart(path: Path, a: string, b: string, p: Path, q: Path, nodes: seq<Node>, n: Node)
    requires path + [a] <= p && path + [b] <= q && nodes != [] && nodes[0].name == a
    requires DistinctNames(nodes) && n in nodes[1..] && n.name == b
    ensures p != q
  {
    var k :| 0 <= k < |nodes[1..]| && nodes[1..][k] == n;
    assert nodes[0].name != nodes[k + 1].name;
    assert (path + [a])[|path|] == p[|path|] && (path + [b])[|path|] == q[|path|];
  }

  lemma JoinNoneTwice(a: seq<Section>, b: seq<Section>)
    requires NoneTwice(a) && NoneTwice(b)
    requires forall i, j :: 0 <= i < |a| && 0 <= j < |b| ==> a[i].header != b[j].header
    ensures NoneTwice(a + b)
  {
  }

  // ---------------------------------------------------------------- what the sections say

  /** The shown ones among the nodes, in the order of the nodes. */
  ghost predicate PicksShown(shown: seq<Node>, picks: seq<nat>, nodes: seq<Node>, showAll: bool) {
    Ascending(picks) && PickedFrom(shown, picks, nodes) && AllPicked(picks, nodes, showAll)
  }

  ghost predicate Ascending(picks: seq<nat>) {
    forall i, j :: 0 <= i < j < |picks| ==> picks[i] < picks[j]
  }

  ghost predicate PickedFrom(shown: seq<Node>, picks: seq<nat>, nodes: seq<Node>) {
    |shown| == |picks| && forall i :: 0 <= i < |picks| ==> picks[i] < |nodes| && shown[i] == nodes[picks[i]]
  }

  ghost predicate AllPicked(picks: seq<nat>, nodes: seq<Node>, showAll: bool) {
    forall k: nat :: k in picks <==> k < |nodes| && (showAll || !("." <= nodes[k].name))
  }

  lemma {:induction false} EntriesInOrder(nodes: seq<Node>, showAll: bool) returns (picks: seq<nat>)
    ensures PicksShown(Entries(nodes, showAll), picks, nodes, showAll)
    decreases |nodes|
  {
    hide PicksShown;
    picks := [];
    if nodes == [] {
      NothingPicked(showAll);
    } else {
      var rest := EntriesInOrder(nodes[1..], showAll);
      picks := PicksMore(Entries(nodes[1..], showAll), rest, nodes, showAll);
    }
  }

  lemma NothingPicked(showAll: bool)
    ensures PicksShown([], [], [], showAll)
  {
  }

  lemma PicksMore(shown: seq<Node>, rest: seq<nat>, nodes: seq<Node>, showAll: bool) returns (picks: seq<nat>)
    requires nodes != [] && PicksShown(shown, rest, nodes[1..], showAll)
    ensures PicksShown((if Shown(nodes[0], showAll) then [nodes[0]] else []) + shown, picks, nodes, showAll)
  {
    hide Shown, Ascending, PickedFrom, AllPicked;
    var later := seq(|rest|, i requires 0 <= i < |rest| => rest[i] + 1);
    ShownExactly(nodes[0], showAll);
    picks := if Shown(nodes[0], showAll) then [0] + later else later;
    LaterAscend(rest, later);
    LaterPicked(shown, rest, later, nodes);
    LaterAll(rest, later, nodes, showAll);
    assert [] + shown == shown;
  }

  lemma LaterAscend(rest: seq<nat>, later: seq<nat>)
    requires Ascending(rest) && |later| == |rest| && forall i :: 0 <= i < |rest| ==> later[i] == rest[i] + 1
    ensures Ascending(later) && Ascending([0] + later)
  {
  }

  lemma LaterPicked(shown: seq<Node>, rest: seq<nat>, later: seq<nat>, nodes: seq<Node>)
    requires nodes != [] && PickedFrom(shown, rest, nodes[1..])
    requires |later| == |rest| && forall i :: 0 <= i < |rest| ==> later[i] == rest[i] + 1
    ensures PickedFrom(shown, later, nodes) && PickedFrom([nodes[0]] + shown, [0] + later, nodes)
  {
    forall i | 0 <= i < |rest| ensures later[i] < |nodes| && shown[i] == nodes[later[i]] {
      assert nodes[1..][rest[i]] == nodes[later[i]];
    }
  }

  lemma LaterAll(rest: seq<nat>, later: seq<nat>, nodes: seq<Node>, showAll: bool)
    requires nodes != [] && AllPicked(rest, nodes[1..], showAll)
    requires |later| == |rest| && forall i :: 0 <= i < |rest| ==> later[i] == rest[i] + 1
    ensures AllPicked(if showAll || !("." <= nodes[0].name) then [0] + later else later, nodes, showAll)
  {
    LaterPicks(rest, later);
    forall k: nat | k > 0 ensures k in later <==> k < |nodes| && (showAll || !("." <= nodes[k].name)) {
      assert k in later <==> k - 1 in rest;
      assert k < |nodes| ==> nodes[1..][k - 1] == nodes[k];
    }
  }

  lemma ShownExactly(n: Node, showAll: bool)
    ensures Shown(n, showAll) <==> showAll || !("." <= n.name)
  {
  }

  lemma LaterPicks(rest: seq<nat>, later: seq<nat>)
    requires |later| == |rest| && forall i :: 0 <= i < |rest| ==> later[i] == rest[i] + 1
    ensures 0 !in later && forall k: int :: k in later <==> k > 0 && k - 1 in rest
  {
    forall k: int | k > 0 && k - 1 in rest ensures k in later {
      var i :| 0 <= i < |rest| && rest[i] == k - 1;
      assert later[i] == k;
    }
  }

  /** The relative path leads to the given directory, through shown real sub-directories. */
  ghost predicate LeadsTo(dir: Node, rel: Path, showAll: bool, end: Node)
    requires dir.Dir?
    decreases |rel|
  {
    if rel == [] then end == dir
    else exists n :: n in dir.children && Shown(n, showAll) && n.Dir? && n.name == rel[0] && LeadsTo(n, rel[1..], showAll, end)
  }

  ghost predicate Describes(s: Section, path: Path, dir: Node, showAll: bool)
    requires dir.Dir?
  {
    exists rel, end :: DescribesAt(s, path, dir, showAll, rel, end)
  }

  /** The section is headed by a directory below and names exactly its shown entries, in listing order. */
  ghost predicate DescribesAt(s: Section, path: Path, dir: Node, showAll: bool, rel: Path, end: Node)
    requires dir.Dir?
  {
    && s.header == Some(path + rel) && LeadsTo(dir, rel, showAll, end) && end.Dir?
    && exists shown, picks :: PicksShown(shown, picks, end.children, showAll) && NamedBy(s.names, shown)
  }

  ghost predicate NamedBy(names: seq<string>, shown: seq<Node>) {
    |names| == |shown| && forall i :: 0 <= i < |shown| ==> names[i] == shown[i].name
  }

  lemma OwnSectionDescribes(path: Path, dir: Node, showAll: bool)
    requires dir.Dir?
    ensures Describes(SectionOf(path, dir, showAll), path, dir, showAll)
  {
    hide Entries, PicksShown;
    var picks := EntriesInOrder(dir.children, showAll);
    assert NamedBy(SectionOf(path, dir, showAll).names, Entries(dir.children, showAll));
    assert path + [] == path;
    assert LeadsTo(dir, [], showAll, dir);
    assert DescribesAt(SectionOf(path, dir, showAll), path, dir, showAll, [], dir);
  }

  lemma DescribesFromAbove(s: Section, path: Path, dir: Node, n: Node, showAll: bool)
    requires dir.Dir? && n in dir.children && Shown(n, showAll) && n.Dir?
    requires Describes(s, path + [n.name], n, showAll)
    ensures Describes(s, path, dir, showAll)
  {
    hide PicksShown, NamedBy;
    var rel, end :| DescribesAt(s, path + [n.name], n, showAll, rel, end);
    var longer := [n.name] + rel;
    assert longer[1..] == rel && path + longer == path + [n.name] + rel;
    assert LeadsTo(dir, longer, showAll, end);
    assert DescribesAt(s, path, dir, showAll, longer, end);
  }

  /** Every section of a walk is headed by a shown real directory below its start and lists the names of
      that directory's shown entries. */
  lemma {:induction false} WalkDescribes(path: Path, dir: Node, showAll: bool)
    requires dir.Dir?
    ensures forall i :: 0 <= i < |Walk(path, dir, showAll)| ==> Describes(Walk(path, dir, showAll)[i], path, dir, showAll)
    decreases dir, 1, 0
  {
    hide WalkAll, Entries, Describes;
    EntriesAreChildren(dir, showAll);
    WalkUnfold(path, dir, showAll);
    OwnSectionDescribes(path, dir, showAll);
    EntriesAreShown(dir, showAll);
    WalkAllDescribes(path, dir, Entries(dir.children, showAll), showAll);
  }

  lemma EntriesAreShown(dir: Node, showAll: bool)
    requires dir.Dir?
    ensures forall n :: n in Entries(dir.children, showAll) ==> Shown(n, showAll)
  {
  }

  lemma {:induction false} WalkAllDescribes(path: Path, parent: Node, nodes: seq<Node>, showAll: bool)
    requires parent.Dir? && forall n :: n in nodes ==> n in parent.children && Shown(n, showAll)
    ensures forall i :: 0 <= i < |WalkAll(path, parent, nodes, showAll)| ==>
      Describes(WalkAll(path, parent, nodes, showAll)[i], path, parent, showAll)
    decreases parent, 0, |nodes|
  {
    hide Walk, Describes, Shown;
    if nodes != [] {
      var first := nodes[0];
      assert first in nodes;
      WalkAllDescribes(path, parent, nodes[1..], showAll);
      if first.Dir? {
        WalkDescribes(path + [first.name], first, showAll);
        forall i | 0 <= i < |Walk(path + [first.name], first, showAll)|
          ensures Describes(Walk(path + [first.name], first, showAll)[i], path, parent, showAll)
        {
          DescribesFromAbove(Walk(path + [first.name], first, showAll)[i], path, parent, first, showAll);
        }
      }
    }
  }

  // ---------------------------------------------------------------- in which order

  /** Which of two relative paths comes first in pre-order: the one that begins the other, or else the one
      that turns off into the entry that is listed earlier. */
  ghost predicate Earlier(dir: Node, a: Path, b: Path, showAll: bool)
    requires dir.Dir?
    decreases |a|
  {
    if b == [] then false
    else if a == [] then true
    else exists i, j :: EarlierAt(dir, a, b, showAll, i, j)
  }

  ghost predicate EarlierAt(dir: Node, a: Path, b: Path, showAll: bool, i: nat, j: nat)
    requires dir.Dir? && a != [] && b != []
    decreases |a|, 0
  {
    var entries := Entries(dir.children, showAll);
    && i <= j < |entries| && entries[i].name == a[0] && entries[j].name == b[0]
    && (i == j ==> entries[i].Dir? && Earlier(entries[i], a[1..], b[1..], showAll))
  }

  /** The headers of the sections are below the path and stand in pre-order. */
  ghost predicate PreOrder(sections: seq<Section>, path: Path, dir: Node, showAll: bool)
    requires dir.Dir?
  {
    forall x, y :: 0 <= x < y < |sections| ==> HeadersEarlier(sections[x], sections[y], path, dir, showAll)
  }

  ghost predicate HeadersEarlier(s: Section, t: Section, path: Path, dir: Node, showAll: bool)
    requires dir.Dir?
  {
    && s.header.Some? && t.header.Some? && path <= s.header.value && path <= t.header.value
    && Earlier(dir, s.header.value[|path|..], t.header.value[|path|..], showAll)
  }

  lemma EarlierInside(s: Section, t: Section, path: Path, dir: Node, showAll: bool, i: nat)
    requires dir.Dir? && i < |Entries(dir.children, showAll)| && Entries(dir.children, showAll)[i].Dir?
    requires var n := Entries(dir.children, showAll)[i]; HeadersEarlier(s, t, path + [n.name], n, showAll)
    ensures HeadersEarlier(s, t, path, dir, showAll)
  {
    hide Entries;
    var n := Entries(dir.children, showAll)[i];
    var a, b := s.header.value[|path|..], t.header.value[|path|..];
    BelowName(path, n.name, s.header.value);
    BelowName(path, n.name, t.header.value);
    assert a[1..] == s.header.value[|path + [n.name]|..] && b[1..] == t.header.value[|path + [n.name]|..];
    assert EarlierAt(dir, a, b, showAll, i, i);
  }

  lemma BelowName(path: Path, name: string, p: Path)
    requires path + [name] <= p
    ensures path <= p && p[|path|..] != [] && p[|path|..][0] == name
  {
    assert (path + [name])[|path|] == p[|path|];
  }

  lemma EarlierAcross(s: Section, t: Section, path: Path, dir: Node, showAll: bool, i: nat, j: nat)
    requires dir.Dir? && i < j < |Entries(dir.children, showAll)|
    requires var entries := Entries(dir.children, showAll);
      && s.header.Some? && t.header.Some?
      && path + [entries[i].name] <= s.header.value && path + [entries[j].name] <= t.header.value
    ensures HeadersEarlier(s, t, path, dir, showAll)
  {
    hide Entries;
    var entries := Entries(dir.children, showAll);
    var a, b := s.header.value[|path|..], t.header.value[|path|..];
    BelowName(path, entries[i].name, s.header.value);
    BelowName(path, entries[j].name, t.header.value);
    assert EarlierAt(dir, a, b, showAll, i, j);
  }

  /** A walk lists directories in pre-order: a directory before what lies below it, and the sub-directories
      in the order of the listing, each with all that lies below before the next. */
  lemma {:induction false} WalkIsPreOrder(path: Path, dir: Node, showAll: bool)
    requires dir.Dir?
    ensures PreOrder(Walk(path, dir, showAll), path, dir, showAll)
    decreases dir, 1, 0
  {
    hide Walk, WalkAll, Entries, Earlier;
    var entries := Entries(dir.children, showAll);
    EntriesAreChildren(dir, showAll);
    WalkUnfold(path, dir, showAll);
    assert entries[0..] == entries;
    WalkAllIsPreOrder(path, dir, 0, showAll);
    WalkAllIsBelow(path, dir, entries, showAll);
    var rest := WalkAll(path, dir, entries, showAll);
    forall y | 0 <= y < |rest| ensures HeadersEarlier(SectionOf(path, dir, showAll), rest[y], path, dir, showAll) {
      assert ComesFrom(path, entries, rest[y]);
      var n :| n in entries && n.Dir? && path + [n.name] <= rest[y].header.value;
      BelowName(path, n.name, rest[y].header.value);
      StartIsEarlier(dir, rest[y].header.value[|path|..], showAll);
      assert path[|path|..] == [];
    }
  }

  lemma StartIsEarlier(dir: Node, b: Path, showAll: bool)
    requires dir.Dir? && b != []
    ensures Earlier(dir, [], b, showAll)
  {
  }

  lemma {:induction false} WalkAllIsPreOrder(path: Path, parent: Node, from: nat, showAll: bool)
    requires parent.Dir? && from <= |Entries(parent.children, showAll)|
    requires forall n :: n in Entries(parent.children, showAll)[from..] ==> n in parent.children
    ensures PreOrder(WalkAll(path, parent, Entries(parent.children, showAll)[from..], showAll), path, parent, showAll)
    decreases parent, 0, |Entries(parent.children, showAll)| - from
  {
    hide Walk, WalkAll, Entries, PreOrder;
    var nodes := Entries(parent.children, showAll)[from..];
    WalkAllUnfold(path, parent, nodes, showAll);
    if nodes == [] {
      NothingIsPreOrder(path, parent, showAll);
    } else {
      assert nodes[0] in nodes && nodes[1..] == Entries(parent.children, showAll)[from + 1..];
      assert forall n :: n in nodes[1..] ==> n in nodes;
      WalkAllIsPreOrder(path, parent, from + 1, showAll);
      var rest := WalkAll(path, parent, nodes[1..], showAll);
      if nodes[0].Dir? {
        WalkIsPreOrder(path + [nodes[0].name], nodes[0], showAll);
        HeadBeforeRest(path, parent, from, showAll);
      } else {
        assert [] + rest == rest;
      }
    }
  }

  lemma NothingIsPreOrder(path: Path, dir: Node, showAll: bool)
    requires dir.Dir?
    ensures PreOrder([], path, dir, showAll)
  {
  }

  lemma WalkAllUnfold(path: Path, parent: Node, nodes: seq<Node>, showAll: bool)
    requires parent.Dir? && forall n :: n in nodes ==> n in parent.children
    ensures nodes == [] ==> WalkAll(path, parent, nodes, showAll) == []
    ensures nodes != [] ==>
      WalkAll(path, parent, nodes, showAll) ==
        (if nodes[0].Dir? then Walk(path + [nodes[0].name], nodes[0], showAll) else []) +
        WalkAll(path, parent, nodes[1..], showAll)
  {
    hide Walk;
  }

  /** One sub-directory's walk in front of those of the later ones. */
  lemma {:induction false} HeadBeforeRest(path: Path, parent: Node, from: nat, showAll: bool)
    requires parent.Dir? && from < |Entries(parent.children, showAll)| && Entries(parent.children, showAll)[from].Dir?
    requires forall n :: n in Entries(parent.children, showAll)[from + 1..] ==> n in parent.children
    requires var first := Entries(parent.children, showAll)[from];
      PreOrder(Walk(path + [first.name], first, showAll), path + [first.name], first, showAll)
    requires PreOrder(WalkAll(path, parent, Entries(parent.children, showAll)[from + 1..], showAll), path, parent, showAll)
    ensures var first := Entries(parent.children, showAll)[from];
      PreOrder(Walk(path + [first.name], first, showAll) +
               WalkAll(path, parent, Entries(parent.children, showAll)[from + 1..], showAll), path, parent, showAll)
  {
    hide Walk, WalkAll, Entries, HeadersEarlier;
    var entries := Entries(parent.children, showAll);
    var first, later := entries[from], entries[from + 1..];
    var head, rest := Walk(path + [first.name], first, showAll), WalkAll(path, parent, later, showAll);
    WalkIsBelow(path + [first.name], first, showAll);
    WalkAllIsBelow(path, parent, later, showAll);
    forall x, y | 0 <= x < y < |head| ensures HeadersEarlier(head[x], head[y], path, parent, showAll) {
      EarlierInside(head[x], head[y], path, parent, showAll, from);
    }
    forall x, y | 0 <= x < |head| && 0 <= y < |rest| ensures HeadersEarlier(head[x], rest[y], path, parent, showAll) {
      assert ComesFrom(path, later, rest[y]);
      var n :| n in later && n.Dir? && path + [n.name] <= rest[y].header.value;
      var k :| 0 <= k < |later| && later[k] == n;
      assert entries[from + 1 + k] == n;
      EarlierAcross(head[x], rest[y], path, parent, showAll, from, from + 1 + k);
    }
    JoinPreOrder(head, rest, path, parent, showAll);
  }

  lemma JoinPreOrder(a: seq<Section>, b: seq<Section>, path: Path, dir: Node, showAll: bool)
    requires dir.Dir? && PreOrder(b, path, dir, showAll)
    requires forall x, y :: 0 <= x < y < |a| ==> HeadersEarlier(a[x], a[y], path, dir, showAll)
    requires forall x, y :: 0 <= x < |a| && 0 <= y < |b| ==> HeadersEarlier(a[x], b[y], path, dir, showAll)
    ensures PreOrder(a + b, path, dir, showAll)
  {
    hide HeadersEarlier;
  }
}
