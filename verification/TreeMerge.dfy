/** The no-overwrite merge of linuxenv.py: renames only, existing destination entries win. */
module TreeMerge {
  import opened Prelude

  type Path = seq<string>

  datatype Tree = Leaf(content: Bytes) | Dir(entries: map<string, Tree>)

  /** Which system calls fail, by the path of the entry relative to the merged trees. */
  datatype Faults = Faults(listing: Path -> bool, renaming: Path -> bool, removing: Path -> bool)

  const NO_FAULTS := Faults(_ => false, _ => false, _ => false)

  function Get(dir: Tree, name: string): Option<Tree>
    requires dir.Dir?
  {
    if name in dir.entries then Some(dir.entries[name]) else None
  }

  /** What becomes of one source entry: what stays in the source, and the destination entry. */
  datatype Placed = Placed(left: Option<Tree>, into: Option<Tree>)

  function MergeEntry(s: Tree, d: Option<Tree>, path: Path, w: Faults): (r: Placed)
    ensures d.Some? ==> r.into.Some?
    decreases s, 1
  {
    match d
    case None => if w.renaming(path) then Placed(Some(s), None) else Placed(None, Some(s))
    case Some(t) =>
      if s.Dir? && t.Dir? then
        var m := MergeDirs(s, t, path, w);
        Placed(m.left, Some(m.into))
      else Placed(Some(s), Some(t))
  }

  /** Both trees after a merge; no source tree when the emptied husk was removed. */
  datatype Merged = Merged(left: Option<Tree>, into: Tree)

  function At(src: Tree, dst: Tree, path: Path, w: Faults, name: string): Placed
    requires src.Dir? && dst.Dir? && name in src.entries
    decreases src, 0, 0
  {
    MergeEntry(src.entries[name], Get(dst, name), path + [name], w)
  }

  function LeftEntries(src: Tree, dst: Tree, path: Path, w: Faults): map<string, Tree>
    requires src.Dir? && dst.Dir?
    decreases src, 0, 1
  {
    map n | n in src.entries && At(src, dst, path, w, n).left.Some? :: At(src, dst, path, w, n).left.value
  }

  function IntoEntries(src: Tree, dst: Tree, path: Path, w: Faults): map<string, Tree>
    requires src.Dir? && dst.Dir?
    decreases src, 0, 1
  {
    dst.entries + map n | n in src.entries && At(src, dst, path, w, n).into.Some? :: At(src, dst, path, w, n).into.value
  }

  function MergeDirs(src: Tree, dst: Tree, path: Path, w: Faults): (r: Merged)
    requires src.Dir? && dst.Dir?
    ensures r.into.Dir? && (r.left.Some? ==> r.left.value.Dir?)
    decreases src, 0, 2
  {
    if w.listing(path) then Merged(Some(src), dst)
    else
      var left := LeftEntries(src, dst, path, w);
      Merged(if left == map[] && !w.removing(path) then None else Some(Dir(left)), Dir(IntoEntries(src, dst, path, w)))
  }

  // ---------------------------------------------------------------- files

  /** The content of the file at a relative path. */
  function FileAt(t: Option<Tree>, p: Path): Option<Bytes>
    decreases |p|
  {
    match t
    case None => None
    case Some(Leaf(content)) => if p == [] then Some(content) else None
    case Some(Dir(entries)) =>
      if p == [] then None
      else FileAt(if p[0] in entries then Some(entries[p[0]]) else None, p[1..])
  }

  lemma FileUnder(dir: Tree, p: Path)
    requires dir.Dir? && p != []
    ensures FileAt(Some(dir), p) == FileAt(Get(dir, p[0]), p[1..])
  {
  }

  lemma MergedEntry(src: Tree, dst: Tree, path: Path, w: Faults, name: string)
    requires src.Dir? && dst.Dir? && !w.listing(path)
    ensures name in src.entries ==>
      && Get(Dir(LeftEntries(src, dst, path, w)), name) == At(src, dst, path, w, name).left
      && Get(MergeDirs(src, dst, path, w).into, name) == At(src, dst, path, w, name).into
    ensures name !in src.entries ==>
      && Get(Dir(LeftEntries(src, dst, path, w)), name) == None
      && Get(MergeDirs(src, dst, path, w).into, name) == Get(dst, name)
  {
    if name in src.entries {
      var d := Get(dst, name);
      assert d.Some? ==> MergeEntry(src.entries[name], d, path + [name], w).into.Some?;
    }
  }

  /** The husk is removed only when nothing is left in it. */
  lemma LeftFiles(src: Tree, dst: Tree, path: Path, w: Faults, p: Path)
    requires src.Dir? && dst.Dir? && !w.listing(path) && p != []
    ensures FileAt(MergeDirs(src, dst, path, w).left, p) == FileAt(Get(Dir(LeftEntries(src, dst, path, w)), p[0]), p[1..])
  {
    hide At;
  }

  /** For any two trees and any pattern of failing calls: a file of the destination is unchanged and
      nothing of that path leaves the source; a source file whose path the destination lacks ends, with
      its content, in exactly one of the two trees; and no file appears from nowhere. */
  ghost predicate Conserved(s: Option<Bytes>, d: Option<Bytes>, left: Option<Bytes>, into: Option<Bytes>) {
    if d.Some? then into == d && left == s
    else (left == s && into == None) || (left == None && into == s)
  }

  lemma {:induction false} EntryConserves(s: Tree, d: Option<Tree>, path: Path, w: Faults, p: Path)
    ensures var r := MergeEntry(s, d, path, w);
      Conserved(FileAt(Some(s), p), FileAt(d, p), FileAt(r.left, p), FileAt(r.into, p))
    decreases s, 1
  {
    hide MergeDirs;
    if d.Some? && s.Dir? && d.value.Dir? {
      if p != [] {
        MergeConserves(s, d.value, path, w, p);
      } else {
        DirsAreNoFiles(s, d.value, path, w);
      }
    }
  }

  lemma DirsAreNoFiles(src: Tree, dst: Tree, path: Path, w: Faults)
    requires src.Dir? && dst.Dir?
    ensures FileAt(MergeDirs(src, dst, path, w).left, []) == None && FileAt(Some(MergeDirs(src, dst, path, w).into), []) == None
  {
    hide LeftEntries, IntoEntries;
  }

  lemma {:induction false} MergeConserves(src: Tree, dst: Tree, path: Path, w: Faults, p: Path)
    requires src.Dir? && dst.Dir?
    ensures var r := MergeDirs(src, dst, path, w);
      Conserved(FileAt(Some(src), p), FileAt(Some(dst), p), FileAt(r.left, p), FileAt(Some(r.into), p))
    decreases src, 0
  {
    hide LeftEntries, IntoEntries, MergeEntry;
    if p == [] {
      DirsAreNoFiles(src, dst, path, w);
    } else if !w.listing(path) {
      LeftFiles(src, dst, path, w, p);
      FileUnder(src, p);
      FileUnder(dst, p);
      FileUnder(MergeDirs(src, dst, path, w).into, p);
      MergedEntry(src, dst, path, w, p[0]);
      if p[0] in src.entries {
        EntryConserves(src.entries[p[0]], Get(dst, p[0]), path + [p[0]], w, p[1..]);
      }
    }
  }

  /** The path can be taken over: the first name of it that is no directory of the destination is
      not there at all. */
  predicate Lands(d: Option<Tree>, p: Path)
    decreases |p|
  {
    match d
    case None => true
    case Some(Leaf(_)) => false
    case Some(Dir(entries)) => p != [] && Lands(if p[0] in entries then Some(entries[p[0]]) else None, p[1..])
  }

  /** The path can be taken over and no call on the way fails: the directories that are merged can be
      listed, and the entry at which the destination ends can be renamed. */
  predicate Taken(d: Option<Tree>, path: Path, w: Faults, p: Path)
    decreases |p|
  {
    match d
    case None => !w.renaming(path)
    case Some(Leaf(_)) => false
    case Some(Dir(entries)) =>
      p != [] && !w.listing(path) &&
      Taken(if p[0] in entries then Some(entries[p[0]]) else None, path + [p[0]], w, p[1..])
  }

  lemma {:induction false} EntryMovesWhatIsTaken(s: Tree, d: Option<Tree>, path: Path, w: Faults, p: Path)
    requires FileAt(Some(s), p).Some?
    ensures FileAt(MergeEntry(s, d, path, w).left, p).None? <==> Taken(d, path, w, p)
    decreases s, 1
  {
    hide MergeDirs;
    if d.Some? && s.Dir? && d.value.Dir? {
      MovesWhatIsTaken(s, d.value, path, w, p);
    }
  }

  /** For any pattern of failing calls, a source file moves if and only if its path is free in the
      destination and none of the calls it takes fails; failures elsewhere do not matter. */
  lemma {:induction false} MovesWhatIsTaken(src: Tree, dst: Tree, path: Path, w: Faults, p: Path)
    requires src.Dir? && dst.Dir? && FileAt(Some(src), p).Some?
    ensures FileAt(MergeDirs(src, dst, path, w).left, p).None? <==> Taken(Some(dst), path, w, p)
    decreases src, 0
  {
    hide LeftEntries, IntoEntries, MergeEntry;
    if !w.listing(path) {
      LeftFiles(src, dst, path, w, p);
      FileUnder(src, p);
      MergedEntry(src, dst, path, w, p[0]);
      EntryMovesWhatIsTaken(src.entries[p[0]], Get(dst, p[0]), path + [p[0]], w, p[1..]);
    }
  }

  lemma {:induction false} TakenWithoutFaults(d: Option<Tree>, path: Path, p: Path)
    ensures Taken(d, path, NO_FAULTS, p) <==> Lands(d, p)
    decreases |p|
  {
    if d.Some? && d.value.Dir? && p != [] {
      TakenWithoutFaults(Get(d.value, p[0]), path + [p[0]], p[1..]);
    }
  }

  /** Without failing calls a source file moves if and only if its path is free in the destination. */
  lemma WithoutFaultsMovesWhatLands(src: Tree, dst: Tree, path: Path, p: Path)
    requires src.Dir? && dst.Dir? && FileAt(Some(src), p).Some?
    ensures FileAt(MergeDirs(src, dst, path, NO_FAULTS).left, p).None? <==> Lands(Some(dst), p)
  {
    hide Taken, Lands, MergeDirs;
    MovesWhatIsTaken(src, dst, path, NO_FAULTS, p);
    TakenWithoutFaults(Some(dst), path, p);
  }

  // ---------------------------------------------------------------- directories

  predicate DirAt(t: Option<Tree>, p: Path)
    decreases |p|
  {
    match t
    case None => false
    case Some(Leaf(_)) => false
    case Some(Dir(entries)) => p == [] || DirAt(if p[0] in entries then Some(entries[p[0]]) else None, p[1..])
  }

  lemma {:induction false} EntryMakesDirs(s: Tree, d: Option<Tree>, path: Path, w: Faults, p: Path)
    ensures DirAt(MergeEntry(s, d, path, w).into, p) <==> DirAt(d, p) || (DirAt(Some(s), p) && Taken(d, path, w, p))
    decreases s, 1
  {
    hide MergeDirs;
    if d.Some? && s.Dir? && d.value.Dir? {
      MergeMakesDirs(s, d.value, path, w, p);
    } else if d.Some? && d.value.Dir? && s.Leaf? {
      LeafHasNoDirs(s, p);
    }
  }

  lemma LeafHasNoDirs(s: Tree, p: Path)
    requires s.Leaf?
    ensures !DirAt(Some(s), p)
  {
  }

  /** The directories of the destination afterwards, empty ones included: those it had, and those of the
      source that were renamed into it. */
  lemma {:induction false} MergeMakesDirs(src: Tree, dst: Tree, path: Path, w: Faults, p: Path)
    requires src.Dir? && dst.Dir?
    ensures DirAt(Some(MergeDirs(src, dst, path, w).into), p) <==>
      DirAt(Some(dst), p) || (DirAt(Some(src), p) && Taken(Some(dst), path, w, p))
    decreases src, 0
  {
    hide LeftEntries, IntoEntries, MergeEntry;
    if p != [] && !w.listing(path) {
      MergedEntry(src, dst, path, w, p[0]);
      if p[0] in src.entries {
        EntryMakesDirs(src.entries[p[0]], Get(dst, p[0]), path + [p[0]], w, p[1..]);
      }
    }
  }

  // ---------------------------------------------------------------- how many renames

  /** The relative paths of the entries that are renamed. */
  ghost function EntryMoves(s: Tree, d: Option<Tree>, path: Path, w: Faults): set<Path>
    decreases s, 1
  {
    match d
    case None => if w.renaming(path) then {} else {path}
    case Some(t) => if s.Dir? && t.Dir? then Moves(s, t, path, w) else {}
  }

  ghost function MovesOf(src: Tree, dst: Tree, path: Path, w: Faults, names: set<string>): set<Path>
    requires src.Dir? && dst.Dir? && names <= src.entries.Keys
    decreases src, 0, 0
  {
    set n, q | n in names && q in EntryMoves(src.entries[n], Get(dst, n), path + [n], w) :: q
  }

  ghost function Moves(src: Tree, dst: Tree, path: Path, w: Faults): set<Path>
    requires src.Dir? && dst.Dir?
    decreases src, 0, 1
  {
    if w.listing(path) then {} else MovesOf(src, dst, path, w, src.entries.Keys)
  }

  lemma {:induction false} EntryMovesAreBelow(s: Tree, d: Option<Tree>, path: Path, w: Faults)
    ensures forall q :: q in EntryMoves(s, d, path, w) ==> path <= q
    decreases s, 1
  {
    hide Moves;
    if d.Some? && s.Dir? && d.value.Dir? {
      MovesAreBelow(s, d.value, path, w);
    }
  }

  lemma {:induction false} MovesAreBelow(src: Tree, dst: Tree, path: Path, w: Faults)
    requires src.Dir? && dst.Dir?
    ensures forall q :: q in Moves(src, dst, path, w) ==> path <= q
    decreases src, 0
  {
    hide EntryMoves;
    forall q | q in Moves(src, dst, path, w) ensures path <= q {
      assert q in MovesOf(src, dst, path, w, src.entries.Keys);
      var n :| n in src.entries && q in EntryMoves(src.entries[n], Get(dst, n), path + [n], w);
      EntryMovesAreBelow(src.entries[n], Get(dst, n), path + [n], w);
      assert path <= path + [n] <= q;
    }
  }

  /** Exactly these are the renames: entries of the source that the destination lacks, found by merging
      directories that both have and that can be listed, whose own rename does not fail. */
  predicate RenamedAt(s: Tree, d: Option<Tree>, path: Path, w: Faults, rel: Path)
    decreases |rel|
  {
    if rel == [] then d == None && !w.renaming(path)
    else
      && d.Some? && d.value.Dir? && s.Dir? && !w.listing(path) && rel[0] in s.entries
      && RenamedAt(s.entries[rel[0]], Get(d.value, rel[0]), path + [rel[0]], w, rel[1..])
  }

  lemma {:induction false} EntryMovesExactly(s: Tree, d: Option<Tree>, path: Path, w: Faults, rel: Path)
    ensures path + rel in EntryMoves(s, d, path, w) <==> RenamedAt(s, d, path, w, rel)
    decreases s, 1
  {
    hide Moves;
    if d == None {
      assert rel == [] <==> path + rel == path by { assert |path + rel| == |path| + |rel|; }
    } else if s.Dir? && d.value.Dir? {
      MovesExactly(s, d.value, path, w, rel);
    }
  }

  lemma {:induction false} MovesExactly(src: Tree, dst: Tree, path: Path, w: Faults, rel: Path)
    requires src.Dir? && dst.Dir?
    ensures path + rel in Moves(src, dst, path, w) <==> RenamedAt(src, Some(dst), path, w, rel)
    decreases src, 0
  {
    hide EntryMoves, Get;
    if !w.listing(path) {
      var q := path + rel;
      assert q in Moves(src, dst, path, w) <==> q in MovesOf(src, dst, path, w, src.entries.Keys);
      if q in MovesOf(src, dst, path, w, src.entries.Keys) {
        var n :| n in src.entries.Keys && q in EntryMoves(src.entries[n], Get(dst, n), path + [n], w);
        EntryMovesAreBelow(src.entries[n], Get(dst, n), path + [n], w);
        StartsWith(path, n, rel);
        assert path + rel == (path + [n]) + rel[1..];
        EntryMovesExactly(src.entries[n], Get(dst, n), path + [n], w, rel[1..]);
      }
      if rel != [] && rel[0] in src.entries {
        var n := rel[0];
        EntryMovesExactly(src.entries[n], Get(dst, n), path + [n], w, rel[1..]);
        assert path + rel == (path + [n]) + rel[1..];
      }
    }
  }

  lemma StartsWith(path: Path, n: string, rel: Path)
    requires path + [n] <= path + rel
    ensures rel != [] && rel[0] == n
  {
    assert (path + rel)[|path|] == (path + [n])[|path|];
  }

  /** Renames below different names are different. */
  lemma MovesOfOneMore(src: Tree, dst: Tree, path: Path, w: Faults, names: set<string>, name: string)
    requires src.Dir? && dst.Dir? && names <= src.entries.Keys && name in src.entries.Keys - names
    ensures |MovesOf(src, dst, path, w, names + {name})| ==
      |MovesOf(src, dst, path, w, names)| + |EntryMoves(src.entries[name], Get(dst, name), path + [name], w)|
  {
    hide EntryMoves, Get;
    var before := MovesOf(src, dst, path, w, names);
    var more := EntryMoves(src.entries[name], Get(dst, name), path + [name], w);
    assert MovesOf(src, dst, path, w, names + {name}) == before + more;
    forall q | q in before ensures q !in more {
      var n :| n in names && q in EntryMoves(src.entries[n], Get(dst, n), path + [n], w);
      EntryMovesAreBelow(src.entries[n], Get(dst, n), path + [n], w);
      EntryMovesAreBelow(src.entries[name], Get(dst, name), path + [name], w);
      if q in more {
        DifferentNames(path, n, name, q);
      }
    }
    assert before !! more;
  }

  lemma DifferentNames(path: Path, n: string, m: string, q: Path)
    requires path + [n] <= q && path + [m] <= q
    ensures n == m
  {
    assert (path + [n])[|path|] == q[|path|] == (path + [m])[|path|];
  }

  // ---------------------------------------------------------------- merging again

  lemma {:induction false} EntryAgain(s: Tree, d: Option<Tree>, path: Path)
    ensures var r := MergeEntry(s, d, path, NO_FAULTS);
      r.left.Some? ==> r.into.Some? && EntryMoves(r.left.value, r.into, path, NO_FAULTS) == {}
    decreases s, 1
  {
    hide MergeDirs, Moves;
    if d.Some? && s.Dir? && d.value.Dir? {
      MergeAgain(s, d.value, path);
    }
  }

  /** Without failing calls a second merge renames nothing. */
  lemma {:induction false} MergeAgain(src: Tree, dst: Tree, path: Path)
    requires src.Dir? && dst.Dir?
    ensures var r := MergeDirs(src, dst, path, NO_FAULTS);
      r.left.Some? ==> Moves(r.left.value, r.into, path, NO_FAULTS) == {}
    decreases src, 0
  {
    hide EntryMoves, MergeEntry, IntoEntries;
    var r := MergeDirs(src, dst, path, NO_FAULTS);
    if r.left.Some? {
      forall n | n in r.left.value.entries
        ensures EntryMoves(r.left.value.entries[n], Get(r.into, n), path + [n], NO_FAULTS) == {}
      {
        MergedEntry(src, dst, path, NO_FAULTS, n);
        EntryAgain(src.entries[n], Get(dst, n), path + [n]);
      }
    }
  }

  // ---------------------------------------------------------------- the loop

  /** Both directories in the middle of the loop: visited names are merged, the others untouched. */
  ghost predicate InLoop(source: map<string, Tree>, target: map<string, Tree>, src: Tree, dst: Tree, path: Path,
      w: Faults, todo: set<string>)
    requires src.Dir? && dst.Dir?
  {
    && (forall n :: n in todo ==> Get(Dir(source), n) == Get(src, n) && Get(Dir(target), n) == Get(dst, n))
    && (forall n :: n in src.entries && n !in todo ==>
         Get(Dir(source), n) == At(src, dst, path, w, n).left && Get(Dir(target), n) == At(src, dst, path, w, n).into)
    && (forall n :: n !in src.entries ==> n !in source && Get(Dir(target), n) == Get(dst, n))
  }

  lemma LoopStarts(src: Tree, dst: Tree, path: Path, w: Faults)
    requires src.Dir? && dst.Dir?
    ensures InLoop(src.entries, dst.entries, src, dst, path, w, src.entries.Keys)
  {
  }

  /** One more name: whatever the entry's fate is, recording it keeps the loop's state. */
  lemma LoopSteps(source: map<string, Tree>, target: map<string, Tree>, src: Tree, dst: Tree, path: Path, w: Faults,
                  todo: set<string>, name: string)
    requires src.Dir? && dst.Dir? && todo <= src.entries.Keys && name in todo
    requires InLoop(source, target, src, dst, path, w, todo)
    ensures name in source && source[name] == src.entries[name] && Get(Dir(target), name) == Get(dst, name)
    ensures var p := At(src, dst, path, w, name);
      var source' := if p.left.Some? then source[name := p.left.value] else source - {name};
      var target' := if p.into.Some? then target[name := p.into.value] else target;
      && InLoop(source', target', src, dst, path, w, todo - {name})
      && (p.left == Some(src.entries[name]) ==> source' == source)
      && (p.into == Get(dst, name) ==> target' == target)
  {
    hide At;
    assert Get(Dir(source), name) == Get(src, name);
    AlwaysThere(src, dst, path, w, name);
  }

  lemma AlwaysThere(src: Tree, dst: Tree, path: Path, w: Faults, name: string)
    requires src.Dir? && dst.Dir? && name in src.entries
    ensures At(src, dst, path, w, name).into.None? ==> name !in dst.entries
  {
    hide MergeDirs;
  }

  /** Moves what it can and returns what is left of the source, the merged destination and the number
      of renames. Entries are independent, so the order in which they are visited does not matter. */
  method MergeTree(src: Tree, dst: Tree, path: Path, w: Faults) returns (left: Option<Tree>, into: Tree, moved: nat)
    requires src.Dir? && dst.Dir?
    ensures Merged(left, into) == MergeDirs(src, dst, path, w)
    ensures moved == |Moves(src, dst, path, w)|
    decreases src
  {
    hide At, MergeEntry, EntryMoves, MovesOf, LeftEntries, IntoEntries, Moves, MergeDirs, InLoop;
    Unlistable(src, dst, path, w);
    if w.listing(path) {
      return Some(src), dst, 0;
    }
    moved := 0;
    var source, target := src.entries, dst.entries;
    var todo := src.entries.Keys;
    NoMovesYet(src, dst, path, w);
    LoopStarts(src, dst, path, w);
    assert src.entries.Keys - todo == {};
    while todo != {}
      invariant todo <= src.entries.Keys
      invariant moved == |MovesOf(src, dst, path, w, src.entries.Keys - todo)|
      invariant InLoop(source, target, src, dst, path, w, todo)
      decreases todo
    {
      var name :| name in todo;
      ghost var done := src.entries.Keys - todo;
      MovesOfOneMore(src, dst, path, w, done, name);
      assert src.entries.Keys - (todo - {name}) == done + {name};
      LoopSteps(source, target, src, dst, path, w, todo, name);
      AtCases(src, dst, path, w, name);
      todo := todo - {name};
      var entry := source[name];
      if entry.Dir? && name in target && target[name].Dir? {
        var remainder, merged, count := MergeTree(entry, target[name], path + [name], w);
        source := if remainder.Some? then source[name := remainder.value] else source - {name};
        target := target[name := merged];
        moved := moved + count;
        continue;
      }
      if name in target {
        continue;
      }
      if w.renaming(path + [name]) {
        continue;
      }
      source, target := source - {name}, target[name := entry];
      moved := moved + 1;
    }
    assert src.entries.Keys - todo == src.entries.Keys;
    LoopEnd(source, target, src, dst, path, w);
    left := if source == map[] && !w.removing(path) then None else Some(Dir(source));
    into := Dir(target);
  }

  lemma NoMovesYet(src: Tree, dst: Tree, path: Path, w: Faults)
    requires src.Dir? && dst.Dir?
    ensures MovesOf(src, dst, path, w, {}) == {}
  {
  }

  lemma Unlistable(src: Tree, dst: Tree, path: Path, w: Faults)
    requires src.Dir? && dst.Dir?
    ensures w.listing(path) ==> MergeDirs(src, dst, path, w) == Merged(Some(src), dst) && Moves(src, dst, path, w) == {}
  {
  }

  lemma LoopEnd(source: map<string, Tree>, target: map<string, Tree>, src: Tree, dst: Tree, path: Path, w: Faults)
    requires src.Dir? && dst.Dir? && !w.listing(path)
    requires InLoop(source, target, src, dst, path, w, {})
    ensures MergeDirs(src, dst, path, w) ==
      Merged(if source == map[] && !w.removing(path) then None else Some(Dir(source)), Dir(target))
    ensures Moves(src, dst, path, w) == MovesOf(src, dst, path, w, src.entries.Keys)
  {
    hide At, LeftEntries, IntoEntries, MovesOf;
    SameEntries(source, LeftEntries(src, dst, path, w), src, dst, path, w);
    SameTarget(target, src, dst, path, w);
  }

  /** The branches of the loop, for one entry: what is left, what is there, how much was renamed. */
  lemma AtCases(src: Tree, dst: Tree, path: Path, w: Faults, name: string)
    requires src.Dir? && dst.Dir? && name in src.entries
    ensures var s := src.entries[name];
      var d := Get(dst, name);
      var below := path + [name];
      At(src, dst, path, w, name) ==
        if d.Some? && s.Dir? && d.value.Dir? then
          Placed(MergeDirs(s, d.value, below, w).left, Some(MergeDirs(s, d.value, below, w).into))
        else if d.Some? || w.renaming(below) then Placed(Some(s), d)
        else Placed(None, Some(s))
    ensures var s := src.entries[name];
      var d := Get(dst, name);
      var below := path + [name];
      |EntryMoves(s, d, below, w)| ==
        if d.Some? && s.Dir? && d.value.Dir? then |Moves(s, d.value, below, w)|
        else if d.Some? || w.renaming(below) then 0 else 1
  {
    hide MergeDirs, Moves;
  }

  lemma SameEntries(source: map<string, Tree>, left: map<string, Tree>, src: Tree, dst: Tree, path: Path, w: Faults)
    requires src.Dir? && dst.Dir? && !w.listing(path) && left == LeftEntries(src, dst, path, w)
    requires forall n :: n in src.entries ==> Get(Dir(source), n) == At(src, dst, path, w, n).left
    requires forall n :: n !in src.entries ==> n !in source
    ensures source == left
  {
    hide At;
    forall n ensures Get(Dir(source), n) == Get(Dir(left), n) {
      MergedEntry(src, dst, path, w, n);
    }
    forall n ensures n in source <==> n in left {
      assert Get(Dir(source), n) == Get(Dir(left), n);
    }
    forall n | n in source ensures source[n] == left[n] {
      assert Get(Dir(source), n) == Get(Dir(left), n);
    }
  }

  lemma SameTarget(target: map<string, Tree>, src: Tree, dst: Tree, path: Path, w: Faults)
    requires src.Dir? && dst.Dir? && !w.listing(path)
    requires forall n :: n in src.entries ==> Get(Dir(target), n) == At(src, dst, path, w, n).into
    requires forall n :: n !in src.entries ==> Get(Dir(target), n) == Get(dst, n)
    ensures target == IntoEntries(src, dst, path, w)
  {
    hide At;
    var into := IntoEntries(src, dst, path, w);
    forall n ensures Get(Dir(target), n) == Get(Dir(into), n) {
      MergedEntry(src, dst, path, w, n);
      assert MergeDirs(src, dst, path, w).into == Dir(into);
    }
    forall n ensures n in target <==> n in into {
      assert Get(Dir(target), n) == Get(Dir(into), n);
    }
    forall n | n in target ensures target[n] == into[n] {
      assert Get(Dir(target), n) == Get(Dir(into), n);
    }
  }
}
