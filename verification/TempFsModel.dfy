/** The in-memory file system: a set of directory paths, a map of files, and parents found by cutting strings. */
module TempFsModel {

  type Path = string
  type Bytes = seq<bv8>

  datatype Error = NotFound | AlreadyExists | IsADirectory

  datatype Result<+T> = Ok(value: T) | Err(error: Error)

  datatype Entry = File(name: string) | Dir(name: string)

  datatype Fs = Fs(files: map<Path, Bytes>, dirs: set<Path>) {
    predicate IsDir(path: Path) { path == "/" || path in dirs }

    predicate Has(path: Path) { path in files || path in dirs }
  }

  // ---------------------------------------------------------------- paths

  /** `trim_end_matches('/')`. */
  function Trim(path: Path): (t: Path)
    ensures |t| <= |path| && t == path[..|t|]
    ensures t != "" ==> t[|t| - 1] != '/'
    ensures forall i :: |t| <= i < |path| ==> path[i] == '/'
  {
    if path != "" && path[|path| - 1] == '/' then Trim(path[..|path| - 1]) else path
  }

  /** `rfind('/')`: the last slash, or -1. */
  function LastSlash(path: Path): (i: int)
    ensures -1 <= i < |path|
    ensures i >= 0 ==> path[i] == '/'
    ensures forall k :: i < k < |path| ==> path[k] != '/'
  {
    if path == "" then -1
    else if path[|path| - 1] == '/' then |path| - 1
    else LastSlash(path[..|path| - 1])
  }

  function ParentOf(path: Path): (p: Path)
    ensures p == "/" || |p| < |path|
  {
    var i := LastSlash(Trim(path));
    if i <= 0 then "/" else path[..i]
  }

  function LastSegment(path: Path): string {
    var t := Trim(path);
    t[LastSlash(t) + 1..]
  }

  lemma {:induction false} LastSlashOfJoin(dir: Path, name: string)
    requires forall k :: 0 <= k < |name| ==> name[k] != '/'
    ensures LastSlash(dir + "/" + name) == |dir|
    decreases |name|
  {
    var path := dir + "/" + name;
    if name == "" {
      assert path[|path| - 1] == '/';
    } else {
      var shorter := name[..|name| - 1];
      LastSlashOfJoin(dir, shorter);
      assert path[..|path| - 1] == dir + "/" + shorter;
      assert path[|path| - 1] == name[|name| - 1];
    }
  }

  /** Joining a directory and a name and taking the join apart again gives both back. */
  lemma JoinSplits(dir: Path, name: string)
    requires name != "" && forall k :: 0 <= k < |name| ==> name[k] != '/'
    ensures ParentOf(dir + "/" + name) == if dir == "" then "/" else dir
    ensures LastSegment(dir + "/" + name) == name
  {
    var path := dir + "/" + name;
    assert path[|path| - 1] == name[|name| - 1];
    assert Trim(path) == path;
    LastSlashOfJoin(dir, name);
    assert path[..|dir|] == dir && path[|dir| + 1..] == name;
  }

  // ---------------------------------------------------------------- operations

  function Mkdir(fs: Fs, path: Path): (Result<()>, Fs) {
    if fs.IsDir(path) || path in fs.files then (Err(AlreadyExists), fs)
    else if !fs.IsDir(ParentOf(path)) then (Err(NotFound), fs)
    else (Ok(()), fs.(dirs := fs.dirs + {path}))
  }

  function Touch(fs: Fs, path: Path): (Result<()>, Fs) {
    if fs.IsDir(path) then (Err(IsADirectory), fs)
    else if !fs.IsDir(ParentOf(path)) then (Err(NotFound), fs)
    else (Ok(()), if path in fs.files then fs else fs.(files := fs.files[path := []]))
  }

  function Write(fs: Fs, path: Path, data: Bytes): (Result<()>, Fs) {
    if fs.IsDir(path) then (Err(IsADirectory), fs)
    else (Ok(()), fs.(files := fs.files[path := data]))
  }

  function Remove(fs: Fs, path: Path): (Result<()>, Fs) {
    if path in fs.files then (Ok(()), fs.(files := fs.files - {path})) else (Err(NotFound), fs)
  }

  function Read(fs: Fs, path: Path): Result<Bytes> {
    if path in fs.files then Ok(fs.files[path]) else Err(NotFound)
  }

  // ---------------------------------------------------------------- answers and contents

  /** A new directory, only where nothing is and its parent is one; all files keep their contents. */
  lemma MkdirExactly(fs: Fs, path: Path, q: Path)
    ensures var (answer, after) := Mkdir(fs, path);
            && (answer == Err(AlreadyExists) <==> fs.IsDir(path) || path in fs.files)
            && (answer == Err(NotFound) <==> !fs.IsDir(path) && path !in fs.files && !fs.IsDir(ParentOf(path)))
            && (answer.Ok? <==> !fs.IsDir(path) && path !in fs.files && fs.IsDir(ParentOf(path)))
            && (after.IsDir(q) <==> fs.IsDir(q) || (q == path && answer.Ok?))
            && Read(after, q) == Read(fs, q)
  {
  }

  /** A new file is empty; one that exists keeps its content, as all others do. */
  lemma TouchExactly(fs: Fs, path: Path, q: Path)
    ensures var (answer, after) := Touch(fs, path);
            && (answer == Err(IsADirectory) <==> fs.IsDir(path))
            && (answer == Err(NotFound) <==> !fs.IsDir(path) && !fs.IsDir(ParentOf(path)))
            && (answer.Ok? <==> !fs.IsDir(path) && fs.IsDir(ParentOf(path)))
            && (after.IsDir(q) <==> fs.IsDir(q))
            && Read(after, q) == if q == path && answer.Ok? && Read(fs, path).Err? then Ok([]) else Read(fs, q)
  {
  }

  /** What is written is read, under that path and no other. */
  lemma WriteExactly(fs: Fs, path: Path, data: Bytes, q: Path)
    ensures var (answer, after) := Write(fs, path, data);
            && (answer == Err(IsADirectory) <==> fs.IsDir(path)) && (answer.Ok? <==> !fs.IsDir(path))
            && (after.IsDir(q) <==> fs.IsDir(q))
            && Read(after, q) == if q == path && answer.Ok? then Ok(data) else Read(fs, q)
  {
  }

  /** What is removed is not found any more, and everything else is. */
  lemma RemoveExactly(fs: Fs, path: Path, q: Path)
    ensures var (answer, after) := Remove(fs, path);
            && (answer == Err(NotFound) <==> Read(fs, path).Err?) && (answer.Ok? <==> Read(fs, path).Ok?)
            && (after.IsDir(q) <==> fs.IsDir(q))
            && Read(after, q) == if q == path then Err(NotFound) else Read(fs, q)
  {
  }

  // ---------------------------------------------------------------- the namespace is a tree

  /** Files and directories are different paths, the root is neither, and every entry has an existing parent. */
  ghost predicate Tree(fs: Fs) {
    && fs.files.Keys !! fs.dirs && "/" !in fs.dirs && "/" !in fs.files
    && forall p :: fs.Has(p) ==> fs.IsDir(ParentOf(p))
  }

  datatype Op = DoMkdir(path: Path) | DoTouch(path: Path) | DoRemove(path: Path) | DoWrite(path: Path, data: Bytes)

  function Step(fs: Fs, op: Op): Fs {
    match op
    case DoMkdir(path) => Mkdir(fs, path).1
    case DoTouch(path) => Touch(fs, path).1
    case DoRemove(path) => Remove(fs, path).1
    case DoWrite(path, data) => Write(fs, path, data).1
  }

  /** The guard on an operation: a write goes to an existing file or into an existing directory. */
  predicate Rooted(fs: Fs, op: Op) {
    op.DoWrite? ==> fs.IsDir(op.path) || op.path in fs.files || fs.IsDir(ParentOf(op.path))
  }

  /** An operation keeps the tree exactly when it is not a write of a new file under a missing directory. */
  lemma StepKeepsTreeExactly(fs: Fs, op: Op)
    requires Tree(fs)
    ensures Tree(Step(fs, op)) <==> Rooted(fs, op)
  {
    hide ParentOf;
    var after := Step(fs, op);
    if Rooted(fs, op) {
      forall p | after.Has(p) ensures after.IsDir(ParentOf(p)) {
        assert fs.Has(p) || p == op.path;
      }
    } else {
      assert after.Has(op.path);
    }
  }

  predicate AllRooted(fs: Fs, ops: seq<Op>)
    decreases |ops|
  {
    ops == [] || (Rooted(fs, ops[0]) && AllRooted(Step(fs, ops[0]), ops[1..]))
  }

  function After(fs: Fs, ops: seq<Op>): Fs
    decreases |ops|
  {
    if ops == [] then fs else After(Step(fs, ops[0]), ops[1..])
  }

  const EMPTY := Fs(map[], {})

  lemma {:induction false} AfterOneMore(fs: Fs, ops: seq<Op>, op: Op)
    ensures After(fs, ops + [op]) == Step(After(fs, ops), op)
    decreases |ops|
  {
    hide Step;
    if ops == [] {
      assert ops + [op] == [op] && [op][1..] == [];
    } else {
      AfterOneMore(Step(fs, ops[0]), ops[1..], op);
      assert (ops + [op])[1..] == ops[1..] + [op];
    }
  }

  lemma {:induction false} RunKeepsTree(fs: Fs, ops: seq<Op>)
    requires Tree(fs) && AllRooted(fs, ops)
    ensures Tree(After(fs, ops))
    decreases |ops|
  {
    hide Tree, Rooted, Step;
    if ops != [] {
      StepKeepsTreeExactly(fs, ops[0]);
      RunKeepsTree(Step(fs, ops[0]), ops[1..]);
    }
  }

  // ---------------------------------------------------------------- what a file contains after a run

  /** The operation gives the file its content: a write, or a touch that creates it. */
  predicate Sets(fs: Fs, op: Op, q: Path, data: Bytes) {
    match op
    case DoWrite(path, written) => path == q && !fs.IsDir(q) && written == data
    case DoTouch(path) => path == q && q !in fs.files && !fs.IsDir(q) && fs.IsDir(ParentOf(q)) && data == []
    case _ => false
  }

  /** The operation gives the file another content or removes it. */
  predicate Changes(fs: Fs, op: Op, q: Path) {
    match op
    case DoWrite(path, written) => path == q && !fs.IsDir(q)
    case DoTouch(path) => path == q && q !in fs.files && !fs.IsDir(q) && fs.IsDir(ParentOf(q))
    case DoRemove(path) => path == q && q in fs.files
    case DoMkdir(_) => false
  }

  /** No operation from number `i` on changes the file. */
  ghost predicate Kept(fs: Fs, ops: seq<Op>, i: nat, q: Path) {
    forall j :: i <= j < |ops| ==> !Changes(After(fs, ops[..j]), ops[j], q)
  }

  /** Operation `i` gives the file its content and no later one changes it. */
  ghost predicate LastSetBy(fs: Fs, ops: seq<Op>, i: nat, q: Path, data: Bytes) {
    i < |ops| && Sets(After(fs, ops[..i]), ops[i], q, data) && Kept(fs, ops, i + 1, q)
  }

  lemma StepReads(fs: Fs, op: Op, q: Path, data: Bytes)
    ensures Read(Step(fs, op), q) == Ok(data) <==>
            Sets(fs, op, q, data) || (Read(fs, q) == Ok(data) && !Changes(fs, op, q))
  {
    hide ParentOf;
  }

  /** After every run a file reads as its last write since it was created, or as before if nothing changed it. */
  lemma {:induction false} ReadsLastWrite(fs: Fs, ops: seq<Op>, q: Path, data: Bytes)
    ensures Read(After(fs, ops), q) == Ok(data) <==>
            (exists i: nat :: LastSetBy(fs, ops, i, q, data)) || (Read(fs, q) == Ok(data) && Kept(fs, ops, 0, q))
    decreases |ops|
  {
    hide After, Sets, Changes, Read, Step, Kept, LastSetBy;
    if ops == [] {
      NothingChanges(fs, q, data);
    } else {
      var n := |ops| - 1;
      var before := ops[..n];
      ReadsLastWrite(fs, before, q, data);
      assert ops == before + [ops[n]];
      AfterOneMore(fs, before, ops[n]);
      StepReads(After(fs, before), ops[n], q, data);
      KeptOneMore(fs, ops, 0, q);
      var last := Sets(After(fs, before), ops[n], q, data);
      var undone := Changes(After(fs, before), ops[n], q);
      forall i: nat
        ensures LastSetBy(fs, ops, i, q, data) <==> (i == n && last) || (LastSetBy(fs, before, i, q, data) && !undone)
      {
        LastSetOneMore(fs, ops, i, q, data);
      }
      assert LastSetBy(fs, ops, n, q, data) <==> last || (LastSetBy(fs, before, n, q, data) && !undone);
    }
  }

  lemma LastSetOneMore(fs: Fs, ops: seq<Op>, i: nat, q: Path, data: Bytes)
    requires ops != []
    ensures var n := |ops| - 1;
            LastSetBy(fs, ops, i, q, data) <==>
            (i == n && Sets(After(fs, ops[..n]), ops[n], q, data))
            || (LastSetBy(fs, ops[..n], i, q, data) && !Changes(After(fs, ops[..n]), ops[n], q))
  {
    hide After, Changes, Sets;
    var n := |ops| - 1;
    if i < n {
      assert ops[..i] == ops[..n][..i];
      KeptOneMore(fs, ops, i + 1, q);
    }
  }

  lemma NothingChanges(fs: Fs, q: Path, data: Bytes)
    ensures After(fs, []) == fs && Kept(fs, [], 0, q)
    ensures forall i: nat :: !LastSetBy(fs, [], i, q, data)
  {
  }

  lemma KeptOneMore(fs: Fs, ops: seq<Op>, i: nat, q: Path)
    requires i < |ops|
    ensures var n := |ops| - 1;
            Kept(fs, ops, i, q) <==> Kept(fs, ops[..n], i, q) && !Changes(After(fs, ops[..n]), ops[n], q)
  {
    hide After, Changes;
    var before := ops[..|ops| - 1];
    forall j | 0 <= j < |before| ensures ops[..j] == before[..j] && ops[j] == before[j] {
    }
  }

  // ---------------------------------------------------------------- ancestors

  /** `n` times the parent. */
  function Ancestor(path: Path, n: nat): Path
    decreases n
  {
    if n == 0 then path else Ancestor(ParentOf(path), n - 1)
  }

  /** From every entry the parents lead through existing directories to the root, within its length and one. */
  lemma {:induction false} ParentsReachRoot(fs: Fs, path: Path) returns (n: nat)
    requires Tree(fs) && (fs.Has(path) || path == "/")
    ensures n <= |path| + 1 && Ancestor(path, n) == "/"
    ensures forall k :: 0 < k <= n ==> fs.IsDir(Ancestor(path, k))
    decreases if path == "/" then 0 else 1, |path|
  {
    hide ParentOf;
    if path == "/" {
      n := 0;
    } else {
      var m := ParentsReachRoot(fs, ParentOf(path));
      n := m + 1;
      if ParentOf(path) == "/" {
        n := 1;
        assert Ancestor(path, 1) == Ancestor(ParentOf(path), 0);
      }
      forall k | 0 < k <= n ensures fs.IsDir(Ancestor(path, k)) {
        assert Ancestor(path, k) == Ancestor(ParentOf(path), k - 1);
      }
    }
  }

  lemma AnyRunReachesRoot(ops: seq<Op>, path: Path) returns (n: nat)
    requires AllRooted(EMPTY, ops) && After(EMPTY, ops).Has(path)
    ensures n <= |path| + 1 && Ancestor(path, n) == "/"
    ensures forall k :: 0 < k <= n ==> After(EMPTY, ops).IsDir(Ancestor(path, k))
  {
    RunKeepsTree(EMPTY, ops);
    n := ParentsReachRoot(After(EMPTY, ops), path);
  }

  // ---------------------------------------------------------------- listing

  /** The directories and files whose parent is `path`. */
  function DirsIn(fs: Fs, path: Path): set<Path> {
    ChildrenAmong(fs.dirs, path)
  }

  function FilesIn(fs: Fs, path: Path): set<Path> {
    ChildrenAmong(fs.files.Keys, path)
  }

  function ChildrenAmong(paths: set<Path>, path: Path): set<Path> {
    set p | p in paths && ParentOf(p) == path
  }

  /** Every entry is found in one directory that can be listed, and in no other. */
  lemma ListedOnce(fs: Fs, entry: Path, path: Path)
    requires Tree(fs) && fs.Has(entry)
    ensures fs.IsDir(ParentOf(entry))
    ensures entry in DirsIn(fs, path) + FilesIn(fs, path) <==> path == ParentOf(entry)
    ensures !(entry in DirsIn(fs, path) && entry in FilesIn(fs, path))
  {
  }
}
