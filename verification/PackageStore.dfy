/** The transactional core of zpip.py on values: package directory, database, commit, rollback, uninstall. */
module PackageStore {
  import opened Prelude

  // ---------------------------------------------------------------- paths

  type Path = seq<string>

  function UpToSlash(s: string): (i: nat)
    ensures i <= |s| && (i < |s| ==> s[i] == '/')
  {
    if s == "" || s[0] == '/' then 0 else 1 + UpToSlash(s[1..])
  }

  /** The components PurePosixPath keeps: empty ones and "." are dropped. */
  function Norm(name: string): Path
    decreases |name|
  {
    var i := UpToSlash(name);
    var first := name[..i];
    var rest := if i < |name| then Norm(name[i + 1..]) else [];
    if first == "" || first == "." then rest else [first] + rest
  }

  /** The spelling PurePosixPath prints for a relative path. */
  function Spell(path: Path): string {
    if path == [] then "." else if |path| == 1 then path[0] else path[0] + "/" + Spell(path[1..])
  }

  lemma UpToFirstSlash(a: string, b: string)
    requires '/' !in a
    ensures UpToSlash(a) == |a| && UpToSlash(a + "/" + b) == |a|
  {
    if a != "" {
      assert a[0] in a && (a + "/" + b)[0] == a[0];
      assert (a + "/" + b)[1..] == a[1..] + "/" + b;
      UpToFirstSlash(a[1..], b);
    }
  }

  /** How a name splits at its first slash. */
  lemma NormSplits(a: string, b: string)
    requires '/' !in a
    ensures Norm(a + "/" + b) == if a == "" || a == "." then Norm(b) else [a] + Norm(b)
    ensures Norm(a) == if a == "" || a == "." then [] else [a]
  {
    UpToFirstSlash(a, b);
    var name := a + "/" + b;
    assert name[..|a|] == a && name[|a| + 1..] == b;
    assert a[..|a|] == a;
  }

  /** A component a path can have. */
  ghost predicate Component(c: string) {
    c != "" && c != "." && '/' !in c
  }

  /** Spelling a path and reading it again: the normal spelling is plain. */
  lemma {:induction false} SpellReadsBack(path: Path)
    requires path != [] && forall c :: c in path ==> Component(c)
    ensures Norm(Spell(path)) == path && Plain(Spell(path))
    decreases |path|
  {
    hide Norm;
    assert path[0] in path;
    if |path| == 1 {
      NormSplits(path[0], "");
    } else {
      assert forall c :: c in path[1..] ==> c in path;
      SpellReadsBack(path[1..]);
      NormSplits(path[0], Spell(path[1..]));
      assert [path[0]] + path[1..] == path;
    }
  }

  /** A file name in its normal spelling. */
  predicate Plain(name: string) {
    Spell(Norm(name)) == name
  }

  /** Two plain names of one file are equal. */
  lemma PlainNamesAgree(f: string, g: string)
    requires Plain(f) && Plain(g) && Norm(f) == Norm(g)
    ensures f == g
  {
  }

  // ---------------------------------------------------------------- state

  type Disk = map<Path, Bytes>

  datatype Record = Record(files: set<string>, version: string, explicit: bool)

  datatype Store = Store(disk: Disk, db: map<string, Record>)

  /** An operating-system error in the at-th turn of the commit loop, before or after the copy that
      backs an existing target up; an at beyond the last turn is no error. */
  datatype Fault = Fault(at: nat, afterBackup: bool)

  /** The variables of the commit loop. */
  datatype Tx = Tx(disk: Disk, staging: Disk, backup: Disk, committed: seq<string>, failed: bool)

  /** One turn: back the target up, move the staged file over it, note it. */
  function Turn(tx: Tx, relative: string, index: nat, fault: Fault): Tx
    requires !tx.failed
  {
    var target := Norm(relative);
    if index == fault.at && !fault.afterBackup then tx.(failed := true)
    else
      var saved := if target in tx.disk then tx.(backup := tx.backup[target := tx.disk[target]]) else tx;
      if index == fault.at || target !in saved.staging then saved.(failed := true)
      else saved.(disk := saved.disk[target := saved.staging[target]], staging := saved.staging - {target},
                  committed := saved.committed + [relative])
  }

  function CommitLoop(tx: Tx, files: seq<string>, index: nat, fault: Fault): Tx
    requires index <= |files|
    decreases |files| - index
  {
    if tx.failed || index == |files| then tx
    else CommitLoop(Turn(tx, files[index], index, fault), files, index + 1, fault)
  }

  /** The except branch: committed files in reverse, each restored from its backup or removed. */
  function Rollback(disk: Disk, backup: Disk, committed: seq<string>): Disk
    decreases |committed|
  {
    if committed == [] then disk
    else
      var target := Norm(committed[|committed| - 1]);
      var rest := committed[..|committed| - 1];
      if target in backup then Rollback(disk[target := backup[target]], backup - {target}, rest)
      else Rollback(disk - {target}, backup, rest)
  }

  function Paths(files: set<string>): set<Path> {
    set f | f in files :: Norm(f)
  }

  function AsSet(files: seq<string>): set<string> {
    set f | f in files
  }

  predicate AllDifferent(files: seq<string>) {
    forall i, j :: 0 <= i < j < |files| ==> files[i] != files[j]
  }

  function Previous(s: Store, pkg: string): set<string> {
    if pkg in s.db then s.db[pkg].files else {}
  }

  /** The ownership check: a member is recorded for another package under the same name. */
  predicate Collides(s: Store, pkg: string, files: seq<string>) {
    exists owner :: owner in s.db && owner != pkg && exists f :: f in files && f in s.db[owner].files
  }

  /** What a staged archive asks for; depth is the number of packages whose installation waits for it,
      none for one the user asked for by name. */
  datatype Request = Request(pkg: string, files: seq<string>, staging: Disk, version: string, depth: nat, fault: Fault)

  /** The commit loop run from the current disk with the archive extracted. */
  function Committed(s: Store, r: Request): Tx {
    CommitLoop(Tx(s.disk, r.staging, map[], [], false), r.files, 0, r.fault)
  }

  predicate Succeeds(s: Store, r: Request) {
    !Collides(s, r.pkg, r.files) && !Committed(s, r).failed
  }

  /** Ownership check, commit, sweep and save, or rollback. */
  function Apply(s: Store, r: Request): Store {
    if Collides(s, r.pkg, r.files) then s
    else
      var tx := Committed(s, r);
      if tx.failed then s.(disk := Rollback(tx.disk, tx.backup, tx.committed))
      else
        Store(tx.disk - Paths(Previous(s, r.pkg) - AsSet(r.files)),
              s.db[r.pkg := Record(AsSet(r.files), r.version, (r.pkg in s.db && s.db[r.pkg].explicit) || r.depth == 0)])
  }

  function Remove(s: Store, pkg: string): Store {
    if pkg in s.db then Store(s.disk - Paths(s.db[pkg].files), s.db - {pkg}) else s
  }

  datatype Op = Install(request: Request) | Uninstall(pkg: string)

  function Step(s: Store, op: Op): Store {
    match op
    case Install(r) => Apply(s, r)
    case Uninstall(pkg) => Remove(s, pkg)
  }

  function Run(s: Store, ops: seq<Op>): Store
    decreases ops
  {
    if ops == [] then s else Run(Step(s, ops[0]), ops[1..])
  }

  // ---------------------------------------------------------------- invariant

  /** Every recorded file exists. */
  ghost predicate Present(s: Store) {
    forall pkg :: pkg in s.db ==> Paths(s.db[pkg].files) <= s.disk.Keys
  }

  /** No two recorded names, of one package or of two, denote the same file. */
  ghost predicate Apart(s: Store) {
    forall p, q, f, g :: p in s.db && q in s.db && f in s.db[p].files && g in s.db[q].files && Norm(f) == Norm(g) ==>
      p == q && f == g
  }

  ghost predicate Inv(s: Store) {
    Present(s) && Apart(s)
  }

  /** Extraction has put every member into the staging directory. */
  ghost predicate Staged(files: seq<string>, staging: Disk) {
    forall f :: f in files ==> Norm(f) in staging
  }

  /** No member is another spelling of a recorded file. */
  ghost predicate NoRespelling(s: Store, files: seq<string>) {
    forall f, q, g :: f in files && q in s.db && g in s.db[q].files && Norm(f) == Norm(g) ==> f == g
  }

  /** The first k members denote k different files. */
  ghost predicate Distinct(files: seq<string>, k: nat)
    requires k <= |files|
  {
    forall i, j :: 0 <= i < j < k ==> Norm(files[i]) != Norm(files[j])
  }
}
