/** The file system object. */
module TempFs {
  import opened TempFsModel
  import opened TempFsNames

  class TmpFs {
    var files: map<Path, Bytes>
    var dirs: set<Path>

    ghost function Model(): Fs
      reads this
    {
      Fs(files, dirs)
    }

    /** No path is both a file and a directory. */
    ghost predicate Valid()
      reads this
    {
      files.Keys !! dirs && "/" !in dirs && "/" !in files
    }

    constructor ()
      ensures Valid() && Model() == EMPTY
    {
      files, dirs := map[], {};
    }

    predicate IsDir(path: Path)
      reads this
      ensures IsDir(path) <==> Model().IsDir(path)
    {
      path == "/" || path in dirs
    }

    method Mkdir(path: Path) returns (r: Result<()>)
      requires Valid()
      modifies this
      ensures Valid() && (r, Model()) == TempFsModel.Mkdir(old(Model()), path)
      ensures old(Tree(Model())) ==> Tree(Model())
    {
      ghost var before := Model();
      if Tree(before) {
        StepKeepsTreeExactly(before, DoMkdir(path));
      }
      if path == "/" || IsDir(path) || path in files {
        return Err(AlreadyExists);
      }
      var parent := ParentOf(path);
      if !IsDir(parent) {
        return Err(NotFound);
      }
      dirs := dirs + {path};
      return Ok(());
    }

    method Touch(path: Path) returns (r: Result<()>)
      requires Valid()
      modifies this
      ensures Valid() && (r, Model()) == TempFsModel.Touch(old(Model()), path)
      ensures old(Tree(Model())) ==> Tree(Model())
    {
      ghost var before := Model();
      if Tree(before) {
        StepKeepsTreeExactly(before, DoTouch(path));
      }
      if IsDir(path) {
        return Err(IsADirectory);
      }
      var parent := ParentOf(path);
      if !IsDir(parent) {
        return Err(NotFound);
      }
      if path !in files {
        files := files[path := []];
      }
      return Ok(());
    }

    method Write(path: Path, data: Bytes) returns (r: Result<()>)
      requires Valid()
      modifies this
      ensures Valid() && (r, Model()) == TempFsModel.Write(old(Model()), path, data)
      ensures old(Tree(Model())) ==> (Tree(Model()) <==> old(Rooted(Model(), DoWrite(path, data))))
    {
      ghost var before := Model();
      if Tree(before) {
        StepKeepsTreeExactly(before, DoWrite(path, data));
      }
      if IsDir(path) {
        return Err(IsADirectory);
      }
      files := files[path := data];
      return Ok(());
    }

    method Remove(path: Path) returns (r: Result<()>)
      requires Valid()
      modifies this
      ensures Valid() && (r, Model()) == TempFsModel.Remove(old(Model()), path)
      ensures old(Tree(Model())) ==> Tree(Model())
    {
      ghost var before := Model();
      if Tree(before) {
        StepKeepsTreeExactly(before, DoRemove(path));
      }
      if path !in files {
        return Err(NotFound);
      }
      files := files - {path};
      return Ok(());
    }

    method Read(path: Path) returns (r: Result<Bytes>)
      requires Valid()
      ensures r == TempFsModel.Read(Model(), path)
    {
      if path in files {
        return Ok(files[path]);
      }
      return Err(NotFound);
    }

    /** The entries of a directory under their names, or an error for what is no directory. */
    method ListEntries(path: Path) returns (r: Result<seq<Entry>>)
      requires Valid()
      ensures !Model().IsDir(path) ==> r == Err(NotFound)
      ensures Model().IsDir(path) ==>
                r.Ok? && exists paths :: Lists(Model(), path, paths) && ShowsEach(r.value, paths, dirs)
      ensures r.Ok? ==> (NamesDiffer(Model(), path) <==>
                         forall i, j :: 0 <= i < j < |r.value| ==> r.value[i].name != r.value[j].name)
    {
      hide ParentOf, LastSegment, ChildrenAmong, NamesDiffer, Names, ShowsEach;
      if !IsDir(path) {
        return Err(NotFound);
      }
      var entries, left := [], dirs;
      ghost var paths: seq<Path> := [];
      assert Names([], dirs) == [];
      while left != {}
        invariant left <= dirs && entries == Names(paths, dirs)
        invariant multiset(paths) + multiset(ChildrenAmong(left, path)) == multiset(DirsIn(Model(), path))
        invariant forall i :: 0 <= i < |paths| ==> paths[i] in dirs
      {
        var d :| d in left;
        ChildrenWithout(left, d, path);
        OneMoreName(paths, d, dirs);
        if ParentOf(d) == path {
          entries, paths := entries + [Dir(LastSegment(d))], paths + [d];
        }
        left := left - {d};
      }
      NoChildren(path);
      left := files.Keys;
      while left != {}
        invariant left <= files.Keys && entries == Names(paths, dirs)
        invariant multiset(paths) + multiset(ChildrenAmong(left, path))
               == multiset(DirsIn(Model(), path)) + multiset(FilesIn(Model(), path))
        invariant forall i, j :: 0 <= i < j < |paths| && paths[j] in dirs ==> paths[i] in dirs
      {
        var f :| f in left;
        ChildrenWithout(left, f, path);
        OneMoreName(paths, f, dirs);
        if ParentOf(f) == path {
          entries, paths := entries + [File(LastSegment(f))], paths + [f];
        }
        left := left - {f};
      }
      NoChildren(path);
      assert Lists(Model(), path, paths);
      EntriesApart(Model(), path, paths);
      NamesShowEach(paths, dirs);
      return Ok(entries);
    }
  }

  /** Every directory and every file whose parent is `path`, each once, the directories first. */
  ghost predicate Lists(fs: Fs, path: Path, paths: seq<Path>) {
    && multiset(paths) == multiset(DirsIn(fs, path)) + multiset(FilesIn(fs, path))
    && forall i, j :: 0 <= i < j < |paths| && paths[j] in fs.dirs ==> paths[i] in fs.dirs
  }

  /** Entry `i` shows path `i`: its kind and its name. */
  ghost predicate ShowsEach(entries: seq<Entry>, paths: seq<Path>, dirs: set<Path>) {
    && |entries| == |paths|
    && forall i :: 0 <= i < |paths| ==>
         (entries[i].Dir? <==> paths[i] in dirs) && entries[i].name == LastSegment(paths[i])
  }

  lemma NamesShowEach(paths: seq<Path>, dirs: set<Path>)
    ensures ShowsEach(Names(paths, dirs), paths, dirs)
  {
  }

  /** How a listing shows `paths`. */
  function Names(paths: seq<Path>, dirs: set<Path>): (entries: seq<Entry>)
    ensures |entries| == |paths|
  {
    seq(|paths|, i requires 0 <= i < |paths| =>
      if paths[i] in dirs then Dir(LastSegment(paths[i])) else File(LastSegment(paths[i])))
  }

  /** Entries are told apart exactly when no name comes twice in the listing. */
  lemma NamesApart(fs: Fs, path: Path, paths: seq<Path>)
    requires Lists(fs, path, paths) && fs.IsDir(path) && fs.files.Keys !! fs.dirs
    ensures NamesDiffer(fs, path) <==>
            forall i, j :: 0 <= i < j < |paths| ==> LastSegment(paths[i]) != LastSegment(paths[j])
  {
    hide ParentOf, LastSegment;
    var all := multiset(DirsIn(fs, path)) + multiset(FilesIn(fs, path));
    forall p ensures p in paths <==> IsListed(fs, path, p) {
      assert p in paths <==> p in multiset(paths);
      assert p in all <==> IsListed(fs, path, p);
    }
    forall i, j | 0 <= i < j < |paths| ensures paths[i] != paths[j] {
      assert all[paths[i]] <= 1;
      OccursTwice(paths, i, j);
    }
    if !NamesDiffer(fs, path) {
      var p, q :| IsListed(fs, path, p) && IsListed(fs, path, q) && p != q && LastSegment(p) == LastSegment(q);
      var i :| 0 <= i < |paths| && paths[i] == p;
      var j :| 0 <= j < |paths| && paths[j] == q;
    }
  }

  lemma EntriesApart(fs: Fs, path: Path, paths: seq<Path>)
    requires Lists(fs, path, paths) && fs.IsDir(path) && fs.files.Keys !! fs.dirs
    ensures var entries := Names(paths, fs.dirs);
            NamesDiffer(fs, path) <==> forall i, j :: 0 <= i < j < |entries| ==> entries[i].name != entries[j].name
  {
    hide LastSegment, NamesDiffer, Lists;
    NamesApart(fs, path, paths);
    var entries := Names(paths, fs.dirs);
    forall i | 0 <= i < |paths| ensures entries[i].name == LastSegment(paths[i]) {
    }
  }

  lemma OneMoreName(paths: seq<Path>, p: Path, dirs: set<Path>)
    ensures Names(paths + [p], dirs)
            == Names(paths, dirs) + [if p in dirs then Dir(LastSegment(p)) else File(LastSegment(p))]
  {
  }

  lemma OccursTwice(paths: seq<Path>, i: nat, j: nat)
    requires i < j < |paths|
    ensures paths[i] == paths[j] ==> multiset(paths)[paths[i]] >= 2
  {
    assert paths == paths[..j] + [paths[j]] + paths[j + 1..];
    assert paths[i] in paths[..j];
  }

  lemma NoChildren(path: Path)
    ensures ChildrenAmong({}, path) == {}
  {
  }

  lemma ChildrenWithout(paths: set<Path>, p: Path, path: Path)
    requires p in paths
    ensures multiset(ChildrenAmong(paths, path)) ==
            multiset(ChildrenAmong(paths - {p}, path)) + (if ParentOf(p) == path then multiset{p} else multiset{})
  {
    var all, fewer := ChildrenAmong(paths, path), ChildrenAmong(paths - {p}, path);
    if ParentOf(p) == path {
      assert all == fewer + {p} && p !in fewer;
    } else {
      assert all == fewer;
    }
  }
}
