/** What callers of the index see: which names find an entry, and what renaming or moving one that is
    found makes of the names. */
module IndexLaws {
  import opened Wrappers
  import opened Paths
  import opened CleanPaths
  import opened TreeIndex
  import opened IndexRuns

  // ---------------------------------------------------------------- finding an entry by its name

  /** A clean name without backslashes is left alone, and so is one with a slash in front or behind. */
  lemma NameNormalized(p: string)
    requires Canonical(p) && '\\' !in p
    ensures NormalizePath(p) == p && NormalizePath("/" + p) == p && NormalizePath(p + "/") == p + "/"
  {
    assert NoSlashPair(p) && p[0] != '/';
    forall i | 0 <= i < |"/" + p| - 1
      ensures !SlashPair("/" + p, i)
    {
      assert i > 0 ==> !SlashPair(p, i - 1);
    }
    forall i | 0 <= i < |p + "/"| - 1
      ensures !SlashPair(p + "/", i)
    {
      assert i < |p| - 1 ==> !SlashPair(p, i);
    }
    assert ("/" + p)[1..] == p;
  }

  /** With a backslash or a doubled slash in it, a name is cleaned. */
  lemma NameCleaned(a: string, b: string)
    ensures NormalizePath(a + "\\" + b) == Clean(a + "/" + b) && NormalizePath(a + "//" + b) == Clean(a + "//" + b)
  {
    BackslashCleaned(a, b);
    assert (a + "\\" + b)[|a|] == '\\';
    assert SlashPair(a + "//" + b, |a|);
  }

  /** Every listed entry is found by its own name, with or without a slash in front, and a directory
      also with one behind; what is found is that entry. */
  lemma ListedFound(z: Zip, f: File)
    requires z.Valid() && f in z.files && '\\' !in f.name
    ensures forall s :: s == f.name || s == "/" + f.name || (f.isDir && s == f.name + "/") ==>
              z.FindKey(s) == Some(f.EntryName()) && f.EntryName() in z.lookup && z.lookup[f.EntryName()] == f
  {
    var i :| 0 <= i < |z.files| && z.files[i] == f;
    assert z.Names()[i] == f.EntryName() && z.Names()[i] in z.lookup;
    NameNormalized(f.name);
    OneKind(z.lookup.Keys, f.name);
  }

  lemma OneKind(K: set<string>, p: string)
    requires TreeOk(K)
    ensures !(p in K && p + "/" in K)
  {
    assert p in K ==> p + "/" !in K;
  }

  /** Nothing is found exactly if no entry has the normalized name, with or without a slash behind; and
      what is found is listed and has one of the two. */
  lemma NotFoundIff(z: Zip, s: string)
    requires z.Valid()
    ensures z.FindKey(s).None? <==>
              forall f :: f in z.files ==> f.EntryName() != NormalizePath(s) && f.EntryName() != NormalizePath(s) + "/"
    ensures z.FindKey(s).Some? ==>
              && z.FindKey(s).value in z.lookup && z.lookup[z.FindKey(s).value] in z.files
              && z.lookup[z.FindKey(s).value].EntryName() == z.FindKey(s).value
  {
    forall f | f in z.files
      ensures f.EntryName() in z.lookup
    {
      var i :| 0 <= i < |z.files| && z.files[i] == f;
      assert z.Names()[i] in z.lookup;
    }
    forall n | n in z.lookup
      ensures z.lookup[n] in z.files && z.lookup[n].EntryName() == n
    {
      var i :| 0 <= i < |z.files| && z.Names()[i] == n;
    }
  }

  // ---------------------------------------------------------------- renaming and moving what is there

  /** A path given by its components. */
  predicate PathOf(path: string, dirs: seq<string>, base: string) {
    Resolved(dirs + [base], true) && path == JoinAll(dirs + [base])
  }

  lemma PathParts(path: string, dirs: seq<string>, base: string)
    requires PathOf(path, dirs, base)
    ensures Canonical(path) && '\\' !in path && Dir(path) == JoinAll(dirs) && Base(path) == base
    ensures path == if dirs == [] then base else JoinAll(dirs) + "/" + base
    ensures dirs != [] ==> Canonical(JoinAll(dirs)) && Parts(JoinAll(dirs)) == dirs
  {
    var all := dirs + [base];
    assert all[..|all| - 1] == dirs && all[|dirs|] == base;
    assert forall i :: 0 <= i < |dirs| ==> dirs[i] == all[i];
    JoinedCanonical(all, true);
    if dirs != [] {
      JoinedCanonical(dirs, true);
      PartsOfJoined(dirs);
    }
    LastSlash(path, JoinAll(dirs), base);
  }

  lemma SlashBehindDir(path: string)
    ensures Dir(path) != "" ==> |Dir(path)| < |path| && path[|Dir(path)|] == '/'
  {
    if Dir(path) != "" {
      assert path[..|Dir(path)| + 1][|Dir(path)|] == '/';
    }
  }

  /** The directory of a path ends at its last slash. */
  lemma LastSlash(path: string, dir: string, base: string)
    requires '/' !in base && base != "" && path == (if dir == "" then base else dir + "/" + base)
    requires path[0] != '/'
    ensures Dir(path) == dir && Base(path) == base
  {
    SlashBehindDir(path);
    assert dir != "" ==> path[|dir|] == '/' && path[..|dir|] == dir;
    assert dir != "" ==> forall i :: |dir| < i < |path| ==> path[i] == base[i - |dir| - 1];
  }

  /** Joining a directory and a name puts the name behind the others. */
  lemma JoinedPath(to: string, dirs: seq<string>, name: string)
    requires PathOf(to, dirs, name)
    ensures PathJoin(JoinAll(dirs), name) == to
  {
    PathParts(to, dirs, name);
    var all := dirs + [name];
    PartsOfJoined(all);
    assert to[0] != '/';
    ResolveFixed(all);
  }

  /** The names after the entries below `from` have gone below `to`. */
  ghost predicate Moved(N: seq<string>, M: seq<string>, from: string, to: string) {
    && |M| == |N|
    && forall i :: 0 <= i < |N| ==>
         M[i] == if |from| <= |N[i]| && N[i][..|from|] == from then to + N[i][|from|..] else N[i]
  }

  /** The entry is there, the new path is free, its parent is there, and the new names are short. */
  ghost predicate Possible(N: seq<string>, key: string, from: string, to: string, dirs: seq<string>) {
    && TreeOk(Keys(N)) && key in N
    && to !in N && to + "/" !in N && (dirs == [] || JoinAll(dirs) + "/" in N)
    && (forall n :: n in N && HasPrefix(n, key) ==> |n| + |to| <= MAX_STRING_LENGTH + |from|)
    && (EndsInSlash(key) ==> !HasPrefix(to + "/", from + "/"))
  }

  /** So the transformation is done, and changes the names of the entry and of what is below it. */
  lemma PathChanged(N: seq<string>, isDir: bool, from: string, to: string, dirs: seq<string>, name: string)
    requires Canonical(from) && PathOf(to, dirs, name) && from != to
    requires Possible(N, NewPrefix(isDir, from), from, to, dirs)
    ensures !Stays(N, NewPrefix(isDir, from), to)
    ensures Moved(N, WithPath(N, NewPrefix(isDir, from), to), NewPrefix(isDir, from), NewPrefix(isDir, to))
  {
    PathParts(to, dirs, name);
    var key := NewPrefix(isDir, from);
    assert isDir ==> key[..|from|] == from;
    assert EndsInSlash(key) == isDir && NameOf(key) == from;
    assert forall n :: n in Keys(N) <==> n in N;
    assert !MovedNameTooLong(Keys(N), key, NewPrefix(isDir, to));
    ParentThere(Keys(N), to);
    WithoutDirs(N);
  }

  /** Renaming a listed entry to a free name beside it succeeds: the entry and all entries below it have
      the new name, all others the old one. */
  lemma RenamedBeside(N: seq<string>, isDir: bool, from: string, to: string, dirs: seq<string>, base: string,
                      newName: string)
    requires PathOf(from, dirs, base) && PathOf(to, dirs, newName) && base != newName && from != newName
    requires Possible(N, NewPrefix(isDir, from), from, to, dirs)
    ensures Moved(N, AfterOp(N, Op.Rename(from, newName)), NewPrefix(isDir, from), NewPrefix(isDir, to))
  {
    PathParts(from, dirs, base);
    PathParts(to, dirs, newName);
    JoinedPath(to, dirs, newName);
    LastOf(dirs, newName);
    RenameTarget(N, isDir, from, newName, to);
    PathChanged(N, isDir, from, to, dirs, newName);
  }

  lemma LastOf(dirs: seq<string>, name: string)
    requires Resolved(dirs + [name], true)
    ensures name != "" && '/' !in name && '\\' !in name
  {
    assert (dirs + [name])[|dirs|] == name;
  }

  lemma RenameTarget(N: seq<string>, isDir: bool, from: string, newName: string, to: string)
    requires TreeOk(Keys(N)) && NewPrefix(isDir, from) in N && Canonical(from) && '\\' !in from && from != newName
    requires newName != "" && '/' !in newName && '\\' !in newName && PathJoin(Dir(from), newName) == to
    ensures Target(N, Op.Rename(from, newName)) == Some((NewPrefix(isDir, from), to))
  {
    FoundAs(N, isDir, from);
  }

  lemma FoundAs(N: seq<string>, isDir: bool, p: string)
    requires TreeOk(Keys(N)) && NewPrefix(isDir, p) in N && Canonical(p) && '\\' !in p
    ensures FindName(Keys(N), p) == Some(NewPrefix(isDir, p)) && NameOf(NewPrefix(isDir, p)) == p
  {
    NameNormalized(p);
    OneKind(Keys(N), p);
  }

  /** Moving a listed entry to an existing directory, or to the top, where its name is free. */
  lemma MovedBelow(N: seq<string>, isDir: bool, from: string, to: string, dirs: seq<string>, base: string,
                   target: seq<string>)
    requires PathOf(from, dirs, base) && PathOf(to, target, base) && from != to
    requires Possible(N, NewPrefix(isDir, from), from, to, target)
    ensures Moved(N, AfterOp(N, Op.Move(from, JoinAll(target))), NewPrefix(isDir, from), NewPrefix(isDir, to))
  {
    PathParts(from, dirs, base);
    JoinedPath(to, target, base);
    TargetNormalized(target, base);
    MoveTarget(N, isDir, from, JoinAll(target), to);
    PathChanged(N, isDir, from, to, target, base);
  }

  lemma MoveTarget(N: seq<string>, isDir: bool, from: string, dir: string, to: string)
    requires TreeOk(Keys(N)) && NewPrefix(isDir, from) in N && Canonical(from) && '\\' !in from
    requires NormalizePath(dir) == dir && PathJoin(dir, Base(from)) == to
    ensures Target(N, Op.Move(from, dir)) == Some((NewPrefix(isDir, from), to))
  {
    FoundAs(N, isDir, from);
  }

  lemma TargetNormalized(target: seq<string>, base: string)
    requires Resolved(target + [base], true)
    ensures NormalizePath(JoinAll(target)) == JoinAll(target)
  {
    if target != [] {
      assert forall i :: 0 <= i < |target| ==> target[i] == (target + [base])[i];
      JoinedCanonical(target, true);
      NameNormalized(JoinAll(target));
    }
  }

  // ---------------------------------------------------------------- removing and adding

  predicate AtOrBelow(n: string, path: string) {
    n == path || (|path| < |n| && n[..|path|] == path && n[|path|] == '/')
  }

  /** Removing a path goes through the names in order, and drops exactly the path itself and the names
      that continue it with a slash. */
  lemma RemovedSubtree(N: seq<string>, n: string, path: string)
    requires Canonical(path) && '\\' !in path && path != "."
    ensures AfterOp([], Op.Remove(path)) == []
    ensures AfterOp(N + [n], Op.Remove(path)) == AfterOp(N, Op.Remove(path)) + if AtOrBelow(n, path) then [] else [n]
  {
    NameNormalized(path);
    RemovedIff(n, path);
    SplitLast(N, n, path);
  }

  lemma SplitLast(N: seq<string>, n: string, key: string)
    ensures SplitNames(N + [n], key) == SplitNames(N, key) + if Removed(n, key) then [] else [n]
  {
    assert (N + [n])[..|N|] == N;
  }

  lemma RemovedIff(n: string, path: string)
    ensures Removed(n, path) <==> AtOrBelow(n, path)
  {
    if |path| < |n| {
      assert n[..|path| + 1] == n[..|path|] + [n[|path|]];
    }
  }

  /** Adding a path whose parent is there, and that is free, appends it. */
  lemma AddedBelow(N: seq<string>, isDir: bool, path: string, dirs: seq<string>, base: string, comment: string)
    requires PathOf(path, dirs, base) && (dirs == [] || JoinAll(dirs) + "/" in N) && path != "."
    requires path !in N && path + "/" !in N && |path| < MAX_STRING_LENGTH && |comment| <= MAX_STRING_LENGTH
    ensures AfterOp(N, Add(path, isDir, false, comment)) == N + [NewPrefix(isDir, path)]
  {
    PathParts(path, dirs, base);
    CleanFixed(path, dirs + [base]);
    ParentThere(Keys(N), path);
    assert AddError(Keys(N), path, isDir, comment).None?;
    WithoutDirs(N);
  }

  /** A name is too long exactly when the two bytes of a header that hold its length, with the slash of a
      directory, cannot. */
  lemma NameLimit(K: set<string>, p: string, isDir: bool, comment: string)
    requires p != "" && p != "."
    ensures AddError(K, p, isDir, comment) == Some(TooLong) <==> |NewPrefix(isDir, p)| >= 0x1_0000
    ensures |NewPrefix(isDir, p)| < 0x1_0000 ==>
              (AddError(K, p, isDir, comment) == Some(CommentTooLong) <==> |comment| >= 0x1_0000)
  {
  }

  lemma ParentThere(K: set<string>, path: string)
    requires Dir(path) == "" || Dir(path) + "/" in K
    ensures MissingDirs(K, path) == [] && !ParentIsFile(K, path)
  {
  }

  lemma WithoutDirs(N: seq<string>)
    ensures N + DirEntries([]) == N
  {
  }
}
