/** When the names of a listing tell its entries apart: exactly when paths are spelled canonically. */
module TempFsNames {
  import opened TempFsModel

  /** An entry of a directory by its name. */
  function Join(parent: Path, name: string): Path {
    (if parent == "/" then "/" else parent + "/") + name
  }

  /** The canonical spelling of a path: its parent, a slash, and its name. */
  function Spelling(path: Path): Path {
    Join(ParentOf(path), LastSegment(path))
  }

  predicate Canonical(path: Path) {
    path == Spelling(path)
  }

  lemma {:induction false} NameHasNoSlash(path: Path)
    ensures forall k :: 0 <= k < |LastSegment(path)| ==> LastSegment(path)[k] != '/'
  {
    BehindLastSlash(Trim(path));
  }

  lemma {:induction false} BehindLastSlash(t: string)
    ensures var name := t[LastSlash(t) + 1..];
            forall k :: 0 <= k < |name| ==> name[k] != '/'
  {
    hide *;
  }

  lemma {:induction false} NamelessIsSlashes(path: Path)
    requires LastSegment(path) == ""
    ensures Trim(path) == "" && ParentOf(path) == "/" && forall i :: 0 <= i < |path| ==> path[i] == '/'
  {
    hide Trim, LastSegment, ParentOf;
    NamelessTrimsAway(path);
    NothingToCut(path);
  }

  lemma {:induction false} NamelessTrimsAway(path: Path)
    requires LastSegment(path) == ""
    ensures Trim(path) == ""
  {
    var t := Trim(path);
    assert |t[LastSlash(t) + 1..]| == 0;
  }

  lemma {:induction false} NothingToCut(path: Path)
    requires Trim(path) == ""
    ensures ParentOf(path) == "/"
  {
  }

  /** Respelling a path with a name keeps parent and name. */
  lemma SpellingSplits(path: Path)
    requires LastSegment(path) != ""
    ensures ParentOf(Spelling(path)) == ParentOf(path) && LastSegment(Spelling(path)) == LastSegment(path)
    ensures Canonical(Spelling(path))
  {
    hide ParentOf, LastSegment;
    NameHasNoSlash(path);
    var dir := if ParentOf(path) == "/" then "" else ParentOf(path);
    assert Spelling(path) == dir + "/" + LastSegment(path);
    ParentNotEmpty(path);
    JoinSplits(dir, LastSegment(path));
  }

  lemma ParentNotEmpty(path: Path)
    ensures ParentOf(path) != ""
  {
  }

  /** Which paths these are: the root, and those that go on behind their last slash and do not start with two. */
  lemma CanonicalExactly(path: Path)
    ensures Canonical(path) <==>
            path == "/"
            || (0 <= LastSlash(path) < |path| - 1 && !(LastSlash(path) == 1 && path[0] == '/'))
  {
    hide Canonical;
    if path != "" && path[|path| - 1] == '/' {
      TrailingSlashIsNotCanonical(path);
    } else {
      NothingToTrim(path);
      NoTrailingSlash(path);
    }
  }

  lemma TrailingSlashIsNotCanonical(path: Path)
    requires path != "" && path[|path| - 1] == '/'
    ensures Canonical(path) <==> path == "/"
  {
    hide ParentOf, LastSegment;
    NameHasNoSlash(path);
    var spelled, name := Spelling(path), LastSegment(path);
    RootHasNoName();
    if name != "" {
      assert spelled[|spelled| - 1] == name[|name| - 1] != '/';
    } else {
      NamelessIsSlashes(path);
    }
  }

  lemma {:induction false} NoTrailingSlash(path: Path)
    requires Trim(path) == path
    ensures Canonical(path) <==> 0 <= LastSlash(path) && !(LastSlash(path) == 1 && path[0] == '/')
  {
    hide LastSlash, Trim, ParentOf, LastSegment, Join;
    SplitsAndJoins(path);
  }

  lemma {:induction false} SplitsAndJoins(path: Path)
    requires Trim(path) == path
    ensures path == Join(ParentOf(path), LastSegment(path))
            <==> 0 <= LastSlash(path) && !(LastSlash(path) == 1 && path[0] == '/')
  {
    hide *;
    PartsOfTrimmed(path);
    JoinedAgain(path, LastSlash(path));
  }

  lemma {:induction false} PartsOfTrimmed(path: Path)
    requires Trim(path) == path
    ensures ParentOf(path) == if LastSlash(path) <= 0 then "/" else path[..LastSlash(path)]
    ensures LastSegment(path) == path[LastSlash(path) + 1..]
  {
  }

  /** Cutting at a slash and joining again gives the path back, unless what is in front is one slash. */
  lemma {:induction false} JoinedAgain(path: Path, i: int)
    requires -1 <= i < |path| && (i >= 0 ==> path[i] == '/')
    ensures path == Join(if i <= 0 then "/" else path[..i], path[i + 1..]) <==> 0 <= i && !(i == 1 && path[0] == '/')
  {
    hide Join;
    if i >= 0 && !(i == 1 && path[0] == '/') {
      CutAndJoin(path, i);
    } else {
      var parent := if i <= 0 then "/" else path[..i];
      assert i == 1 ==> parent == [path[0]];
      JoinLength(parent, path[i + 1..]);
    }
  }

  lemma {:induction false} JoinLength(parent: Path, name: string)
    ensures |Join(parent, name)| == |name| + 1 + (if parent == "/" then 0 else |parent|)
  {
  }

  lemma {:induction false} CutAndJoin(path: Path, i: nat)
    requires i < |path| && path[i] == '/' && !(i == 1 && path[0] == '/')
    ensures path == Join(if i == 0 then "/" else path[..i], path[i + 1..])
  {
    assert path[..i + 1] == path[..i] + "/";
    assert path == path[..i + 1] + path[i + 1..];
    assert path[..i] != "/" by {
      assert i == 1 ==> path[..i][0] == path[0];
    }
  }

  lemma {:induction false} NothingToTrim(path: Path)
    requires path == "" || path[|path| - 1] != '/'
    ensures Trim(path) == path
  {
  }

  /** Slashes at the end of a path change neither parent nor name, so any of them makes another entry of that name. */
  lemma {:induction false} TrailingSlashRepeatsName(path: Path)
    ensures ParentOf(path + "/") == ParentOf(path) && LastSegment(path + "/") == LastSegment(path)
    ensures Canonical(path + "/") <==> path == ""
  {
    assert Trim(path + "/") == Trim(path) by {
      assert (path + "/")[..|path|] == path;
    }
    SameParts(path + "/", path);
    TrailingSlashIsNotCanonical(path + "/");
    assert path + "/" == "/" <==> path == "" by {
      assert |path + "/"| == |path| + 1;
    }
  }

  lemma {:induction false} SameParts(p: Path, q: Path)
    requires Trim(p) == Trim(q)
    ensures LastSegment(p) == LastSegment(q) && ParentOf(p) == ParentOf(q)
  {
    ParentInTrimmed(p);
    ParentInTrimmed(q);
    hide ParentOf;
  }

  lemma {:induction false} ParentInTrimmed(p: Path)
    ensures var t := Trim(p); ParentOf(p) == if LastSlash(t) <= 0 then "/" else t[..LastSlash(t)]
  {
    var t := Trim(p);
    if LastSlash(t) > 0 {
      assert p[..LastSlash(t)] == p[..|t|][..LastSlash(t)];
    }
  }

  /** Relative paths and paths behind two slashes are the others: all of these repeat the name of "/" + name. */
  lemma {:induction false} OtherSpellingsRepeatName(name: string)
    requires name != "" && forall k :: 0 <= k < |name| ==> name[k] != '/'
    ensures var p := "/" + name;
            && Canonical(p) && ParentOf(p) == "/" && LastSegment(p) == name
            && (forall q :: q in {name, "/" + p, p + "/", name + "/"} ==>
                  !Canonical(q) && ParentOf(q) == "/" && LastSegment(q) == name)
  {
    hide ParentOf, LastSegment, Join;
    var p := "/" + name;
    assert p == "" + "/" + name && "/" + p == "/" + "/" + name;
    JoinSplits("", name);
    JoinSplits("/", name);
    RelativePath(name);
    TrailingSlashRepeatsName(p);
    TrailingSlashRepeatsName(name);
    assert Join("/", name) == p by { JoinAtRoot(name); }
  }

  lemma JoinAtRoot(name: string)
    ensures Join("/", name) == "/" + name
  {
  }

  lemma {:induction false} RelativePath(name: string)
    requires name != "" && forall k :: 0 <= k < |name| ==> name[k] != '/'
    ensures ParentOf(name) == "/" && LastSegment(name) == name
  {
    assert LastSlash(name) == -1;
    assert Trim(name) == name;
  }

  /** A path with a name is canonical if and only if no canonical path has the same parent and name. */
  lemma CanonicalIsUnique(p: Path)
    requires LastSegment(p) != ""
    ensures Canonical(p) <==>
            forall q :: q != p && Canonical(q) && ParentOf(q) == ParentOf(p) ==> LastSegment(q) != LastSegment(p)
  {
    if !Canonical(p) {
      SpellingSplits(p);
    }
  }

  // ---------------------------------------------------------------- names in a listing

  /** `path` is a directory that can be listed and lists `entry`. */
  predicate IsListed(fs: Fs, path: Path, entry: Path) {
    fs.IsDir(path) && fs.Has(entry) && ParentOf(entry) == path
  }

  /** Different entries of the directory have different names. */
  ghost predicate NamesDiffer(fs: Fs, path: Path) {
    forall a, b :: IsListed(fs, path, a) && IsListed(fs, path, b) && a != b ==> LastSegment(a) != LastSegment(b)
  }

  /** The operation may make an entry of the directory. */
  predicate Creates(op: Op, path: Path) {
    !op.DoRemove? && ParentOf(op.path) == path
  }

  /** Whatever the run creates in the directory is spelled canonically or is `p` itself. */
  predicate OthersCanonical(ops: seq<Op>, path: Path, p: Path) {
    forall i :: 0 <= i < |ops| && Creates(ops[i], path) ==> ops[i].path == p || Canonical(ops[i].path)
  }

  /** Every entry was there before or was created by the run. */
  lemma {:induction false} EntriesWereCreated(fs: Fs, ops: seq<Op>, entry: Path)
    requires After(fs, ops).Has(entry)
    ensures fs.Has(entry) || exists i :: 0 <= i < |ops| && !ops[i].DoRemove? && ops[i].path == entry
    decreases |ops|
  {
    if ops != [] {
      EntriesWereCreated(Step(fs, ops[0]), ops[1..], entry);
      if !Step(fs, ops[0]).Has(entry) {
        var i :| 0 <= i < |ops[1..]| && !ops[1..][i].DoRemove? && ops[1..][i].path == entry;
        assert ops[i + 1] == ops[1..][i];
      }
    }
  }

  /** If all that a run creates in a directory is canonical, names there are different, whatever else the run does. */
  lemma CanonicalRunsKeepNamesApart(ops: seq<Op>, path: Path, p: Path)
    requires OthersCanonical(ops, path, p) && Canonical(p)
    ensures NamesDiffer(After(EMPTY, ops), path)
  {
    hide ParentOf, LastSegment, After;
    var fs := After(EMPTY, ops);
    forall a | IsListed(fs, path, a) ensures Canonical(a) {
      EntriesWereCreated(EMPTY, ops, a);
    }
  }

  /** Runs of `mkdir` that end with the directory `path`; nothing longer than it is created on the way. */
  lemma {:induction false} MakeDirectory(path: Path) returns (ops: seq<Op>)
    ensures After(EMPTY, ops).IsDir(path) && After(EMPTY, ops).files == map[]
    ensures forall i :: 0 <= i < |ops| ==> ops[i].DoMkdir? && |ops[i].path| <= |path|
    ensures path == "/" ==> ops == []
    ensures forall d :: d in After(EMPTY, ops).dirs ==> |d| <= |path|
    decreases if path == "/" then 0 else 1, |path|
  {
    hide ParentOf;
    if path == "/" {
      ops := [];
    } else {
      ParentNotEmpty(path);
      if ParentOf(path) == "/" {
        ops := [DoMkdir(path)];
        assert After(EMPTY, ops) == After(Step(EMPTY, ops[0]), []);
      } else {
        var before := MakeDirectory(ParentOf(path));
        var fs := After(EMPTY, before);
        ops := before + [DoMkdir(path)];
        AfterOneMore(EMPTY, before, DoMkdir(path));
        forall d | d in After(EMPTY, ops).dirs ensures |d| <= |path| {
          assert d in fs.dirs || d == path;
        }
      }
    }
  }

  /** Two spellings of one name can stand side by side in the directory of their parent. */
  lemma BothSpellings(p: Path, q: Path) returns (ops: seq<Op>)
    requires p != q && p != "/" && q != "/" && ParentOf(p) == ParentOf(q)
    ensures AllRooted(EMPTY, ops)
    ensures IsListed(After(EMPTY, ops), ParentOf(p), p) && IsListed(After(EMPTY, ops), ParentOf(p), q)
    ensures forall i :: 0 <= i < |ops| && Creates(ops[i], ParentOf(p)) ==> ops[i].path in {p, q}
  {
    hide ParentOf, After, AllRooted;
    var dir := ParentOf(p);
    var before := MakeDirectory(dir);
    var fs := After(EMPTY, before);
    var first := before + [DoMkdir(p)];
    AfterOneMore(EMPTY, before, DoMkdir(p));
    ops := first + [DoMkdir(q)];
    AfterOneMore(EMPTY, first, DoMkdir(q));
    MkdirsAreRooted(EMPTY, ops);
    forall i | 0 <= i < |before| ensures !Creates(before[i], dir) {
      ShorterThanChild(before[i].path, dir);
    }
  }

  lemma ShorterThanChild(path: Path, dir: Path)
    requires |path| <= |dir| && dir != "/"
    ensures ParentOf(path) != dir
  {
  }

  lemma {:induction false} MkdirsAreRooted(fs: Fs, ops: seq<Op>)
    requires forall i :: 0 <= i < |ops| ==> ops[i].DoMkdir?
    ensures AllRooted(fs, ops)
    decreases |ops|
  {
    if ops != [] {
      MkdirsAreRooted(Step(fs, ops[0]), ops[1..]);
    }
  }

  /**
   * For a path with a name: the listing of its directory tells entries apart after all runs that create there nothing
   * but it and canonical paths, if and only if it is canonical itself.
   */
  lemma NamesDifferExactly(p: Path)
    requires LastSegment(p) != ""
    ensures Canonical(p) <==>
            forall ops :: OthersCanonical(ops, ParentOf(p), p) ==> NamesDiffer(After(EMPTY, ops), ParentOf(p))
  {
    hide ParentOf, LastSegment, After, Canonical, NamesDiffer;
    if Canonical(p) {
      forall ops | OthersCanonical(ops, ParentOf(p), p) ensures NamesDiffer(After(EMPTY, ops), ParentOf(p)) {
        CanonicalRunsKeepNamesApart(ops, ParentOf(p), p);
      }
    } else {
      var ops := NameRepeats(p);
    }
  }

  /** The run for the other half: directories on the way, the path, and its canonical spelling. */
  lemma NameRepeats(p: Path) returns (ops: seq<Op>)
    requires LastSegment(p) != "" && !Canonical(p)
    ensures AllRooted(EMPTY, ops) && OthersCanonical(ops, ParentOf(p), p)
    ensures !NamesDiffer(After(EMPTY, ops), ParentOf(p))
  {
    hide ParentOf, LastSegment, After, Join;
    SpellingSplits(p);
    RootHasNoName();
    ops := BothSpellings(p, Spelling(p));
  }

  lemma RootHasNoName()
    ensures LastSegment("/") == ""
  {
    assert Trim("/") == "" by { assert "/"[..0] == ""; }
  }

  /** After every run that creates only canonical paths, no listing repeats a name. */
  lemma CanonicalRunsListDistinctNames(ops: seq<Op>, path: Path)
    requires forall i :: 0 <= i < |ops| && !ops[i].DoRemove? ==> Canonical(ops[i].path)
    ensures NamesDiffer(After(EMPTY, ops), path)
  {
    RootHasNoName();
    assert Canonical("/");
    CanonicalRunsKeepNamesApart(ops, path, "/");
  }

  /** Paths without a name are the empty one and runs of slashes; any two that can be entries are listed as one. */
  lemma NamelessPathsRepeat(p: Path, q: Path) returns (ops: seq<Op>)
    requires LastSegment(p) == "" && LastSegment(q) == "" && p != q && p != "/" && q != "/"
    ensures AllRooted(EMPTY, ops) && !NamesDiffer(After(EMPTY, ops), "/")
  {
    hide ParentOf, LastSegment, After, Trim;
    NamelessIsSlashes(p);
    NamelessIsSlashes(q);
    ops := BothSpellings(p, q);
  }
}
