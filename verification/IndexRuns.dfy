/** Runs of the archive index: any operations one after the other, and what they make of the list of
    names. */
module IndexRuns {
  import opened Wrappers
  import opened Paths
  import opened CleanPaths
  import opened TreeIndex

  /** The operations with their arguments; a load carries the answer of the conflict handler. */
  datatype Op =
    | Add(name: string, isDir: bool, isImplicit: bool, comment: string)
    | Remove(name: string)
    | Rename(name: string, newName: string)
    | Move(name: string, newDir: string)
    | Load(name: string, isDir: bool, action: ConflictAction, newName: string)

  /** Loaded names are clean, and so are the ones a conflict handler gives. */
  ghost predicate OpOk(op: Op) {
    op.Load? ==> Canonical(op.name) && (op.newName == "" || Canonical(op.newName))
  }

  // ---------------------------------------------------------------- operations on the list of names

  function Keys(N: seq<string>): set<string> {
    set n | n in N
  }

  function NameOf(key: string): string {
    if EndsInSlash(key) then key[..|key| - 1] else key
  }

  /** A new entry behind its missing parents. */
  function WithEntry(N: seq<string>, name: string, isDir: bool): seq<string> {
    N + DirEntries(MissingDirs(Keys(N), name)) + [NewPrefix(isDir, name)]
  }

  /** The entry that a renaming or a move finds, and its new path; None if it does not come that far. */
  function Target(N: seq<string>, op: Op): Option<(string, string)>
    requires op.Rename? || op.Move?
  {
    var key := FindName(Keys(N), op.name);
    if key.None? then None
    else if op.Move? then Some((key.value, PathJoin(NormalizePath(op.newDir), Base(NameOf(key.value)))))
    else if op.name == op.newName || op.newName == "" || '/' in op.newName || '\\' in op.newName then None
    else Some((key.value, PathJoin(Dir(NameOf(key.value)), op.newName)))
  }

  /** The renaming is refused, or there is nothing to do. */
  predicate Stays(N: seq<string>, key: string, path: string) {
    NameOf(key) == path || TransformError(Keys(N), NameOf(key), EndsInSlash(key), path).Some?
  }

  function WithPath(N: seq<string>, key: string, path: string): seq<string> {
    if Stays(N, key, path) then N
    else
      SubstAll(N + DirEntries(MissingDirs(Keys(N), path)), NewPrefix(EndsInSlash(key), NameOf(key)),
               NewPrefix(EndsInSlash(key), path))
  }

  /** The names after an operation. */
  function AfterOp(N: seq<string>, op: Op): seq<string> {
    match op
    case Add(name, isDir, _, comment) =>
      if AddError(Keys(N), Clean(name), isDir, comment).Some? then N else WithEntry(N, Clean(name), isDir)
    case Remove(name) => if name == "" || name == "." then [] else SplitNames(N, NormalizePath(name))
    case Rename(_, _) =>
      var t := Target(N, op);
      if t.None? then N else WithPath(N, t.value.0, t.value.1)
    case Move(_, _) =>
      var t := Target(N, op);
      if t.None? then N else WithPath(N, t.value.0, t.value.1)
    case Load(name, isDir, action, newName) =>
      if NewPrefix(isDir, name) !in N then (if ParentIsFile(Keys(N), name) then N else WithEntry(N, name, isDir))
      else if action.Rename? && RenamedError(Keys(N), newName, isDir).None? then WithEntry(N, newName, isDir)
      else N
  }

  /** Giving the entry this path is refused, or concerns a directory, or nothing is in the way. */
  predicate PathHarmless(N: seq<string>, key: string, path: string) {
    var ds := MissingDirs(Keys(N), path);
    EndsInSlash(key) || Stays(N, key, path) || MoveFree(N + DirEntries(ds), WithDirs(Keys(N), ds), key, path)
  }

  /** What leaves the index valid: everything but adding a directory that exists; removing a directory
      that has contents with its trailing slash; renaming a file with something in the way of the names
      that are changed along; and loading an entry over one of the other kind. */
  predicate Harmless(N: seq<string>, op: Op) {
    match op
    case Add(name, isDir, _, comment) =>
      AddError(Keys(N), Clean(name), isDir, comment).Some? || !(isDir && Clean(name) + "/" in N)
    case Remove(name) => name == "" || name == "." || RemovalSafe(Keys(N), NormalizePath(name))
    case Rename(_, _) =>
      var t := Target(N, op);
      t.None? || PathHarmless(N, t.value.0, t.value.1)
    case Move(_, _) =>
      var t := Target(N, op);
      t.None? || PathHarmless(N, t.value.0, t.value.1)
    case Load(name, isDir, action, newName) =>
      if NewPrefix(isDir, name) !in N then ParentIsFile(Keys(N), name) || NewPrefix(!isDir, name) !in N
      else action.Rename? ==> RenamedError(Keys(N), newName, isDir).Some? || NewPrefix(!isDir, newName) !in N
  }

  // ---------------------------------------------------------------- two harmful operations

  /** Adding a directory where it exists is accepted: the list has it twice. */
  lemma DirectoryAddedTwice(p: string)
    requires p != "" && p != "." && p != ".." && '/' !in p && '\\' !in p && |p| < MAX_STRING_LENGTH
    ensures var N, op := [p + "/"], Add(p, true, false, "");
            AddError(Keys(N), p, true, "").None? && AfterOp(N, op) == [p + "/", p + "/"] && !Harmless(N, op)
  {
    var N := [p + "/"];
    CleanOfOne(p);
    NoDir(p, Dir(p));
    assert MissingDirs(Keys(N), p) == [];
    assert p[0] in p && |p| != |p + "/"| && p !in N;
    assert N + [] + [p + "/"] == [p + "/", p + "/"];
    assert p + "/" in N;
  }

  lemma NoDir(p: string, d: string)
    ensures HasPrefix(p, d + "/") ==> '/' in p
  {
    if HasPrefix(p, d + "/") {
      assert p[..|d| + 1][|d|] == p[|d|] == '/';
    }
  }

  lemma CleanOfOne(p: string)
    requires p != "" && p != "." && p != ".." && '/' !in p && '\\' !in p
    ensures Clean(p) == p
  {
    assert Slashes(p) == p;
    PartsOfOne(p);
    assert [p][..0] == [];
    assert Resolve([p], false) == [] + [p] == [p];
    assert p[0] in p;
    assert JoinAll([p]) == p;
  }

  /** Removing the directory "d" under the name "d/" leaves the file in it without its parent. */
  lemma ContentsLeftBehind()
    ensures var N, op := ["d/", "d/a"], Remove("d/");
            TreeOk(Keys(N)) && AfterOp(N, op) == ["d/a"] && !TreeOk(Keys(AfterOp(N, op))) && !Harmless(N, op)
  {
    var dir, file := "d/", "d/a";
    DirAndFile(dir, file);
    SplitOfTwo(dir, file, dir);
    KeysOfTwo(dir, file);
  }

  lemma KeysOfTwo(a: string, b: string)
    ensures Keys([a, b]) == {a, b} && Keys([b]) == {b}
  {
  }

  lemma DirAndFile(dir: string, file: string)
    requires dir == "d/" && file == "d/a"
    ensures NormalizePath(dir) == dir && TreeOk({dir, file}) && !TreeOk({file}) && !RemovalSafe({dir, file}, dir)
    ensures Removed(dir, dir) && !Removed(file, dir)
  {
    assert dir + "/" == "d//" && file[..2] == dir && file[..3] == file && dir[..2] == dir;
    assert SlashAt(file, 1) && file[..1 + 1] == dir && file in {dir, file} && file in {file};
  }

  lemma SplitOfTwo(a: string, b: string, key: string)
    requires Removed(a, key) && !Removed(b, key)
    ensures SplitNames([a, b], key) == [b]
  {
    assert [a][..0] == [] && [a, b][..1] == [a];
    assert SplitNames([], key) == [];
    assert SplitNames([a], key) == [];
  }

  // ---------------------------------------------------------------- runs

  /** The state after any number of operations. */
  function Steps<S, O>(next: (S, O) -> S, s: S, ops: seq<O>): S {
    if ops == [] then s else next(Steps(next, s, ops[..|ops| - 1]), ops[|ops| - 1])
  }

  /** The number of operations before the first that is not good where it is done. */
  function GoodPrefix<S, O>(next: (S, O) -> S, good: (S, O) -> bool, s: S, ops: seq<O>): (n: nat)
    ensures n <= |ops|
    decreases |ops|
  {
    if ops == [] || !good(s, ops[0]) then 0 else 1 + GoodPrefix(next, good, next(s, ops[0]), ops[1..])
  }

  lemma {:induction false} GoodPrefixIs<S, O>(next: (S, O) -> S, good: (S, O) -> bool, s: S, ops: seq<O>, i: nat)
    requires i <= GoodPrefix(next, good, s, ops) && i < |ops|
    ensures good(Steps(next, s, ops[..i]), ops[i]) <==> i < GoodPrefix(next, good, s, ops)
    decreases |ops|
  {
    if i == 0 {
      assert ops[..0] == [];
    } else {
      GoodPrefixIs(next, good, next(s, ops[0]), ops[1..], i - 1);
      FirstStep(next, s, ops[..i]);
      assert ops[..i][1..] == ops[1..][..i - 1];
    }
  }

  lemma {:induction false} FirstStep<S, O>(next: (S, O) -> S, s: S, ops: seq<O>)
    requires ops != []
    ensures Steps(next, s, ops) == Steps(next, next(s, ops[0]), ops[1..])
    decreases |ops|
  {
    var n := |ops| - 1;
    if n == 0 {
      assert ops[..0] == [] && ops[1..] == [];
    } else {
      FirstStep(next, s, ops[..n]);
      assert ops[..n][1..] == ops[1..][..n - 1] && ops[1..][n - 1] == ops[n];
    }
  }

  function After(N: seq<string>, ops: seq<Op>): seq<string> {
    Steps(AfterOp, N, ops)
  }

  /** The number of operations before the first harmful one. */
  function HarmlessPrefix(N: seq<string>, ops: seq<Op>): (n: nat)
    ensures n <= |ops|
  {
    GoodPrefix(AfterOp, Harmless, N, ops)
  }

  // ---------------------------------------------------------------- the operations themselves

  /** The list of names says all that an operation looks at. */
  lemma KeysAreNames(z: Zip)
    requires z.Linked()
    ensures z.lookup.Keys == Keys(z.Names())
  {
    assert forall i :: 0 <= i < |z.Names()| ==> z.Names()[i] in z.lookup;
  }

  lemma FoundEntry(z: Zip, key: string)
    requires z.Valid() && key in z.lookup
    ensures var f := z.lookup[key]; f.isDir == EndsInSlash(key) && f.name == NameOf(key) && f.EntryName() == key
  {
    z.FoundCanonical(key);
    var i :| 0 <= i < |z.files| && z.Names()[i] == key;
  }

  method PerformAdd(z: Zip, op: Op)
    requires op.Add? && z.Valid()
    modifies z, set x | x in z.files
    ensures z.Names() == AfterOp(old(z.Names()), op) && z.Valid() == Harmless(old(z.Names()), op)
    ensures forall x :: x in z.files ==> x in old(z.files) || fresh(x)
  {
    ghost var N := z.Names();
    KeysAreNames(z);
    var f := new File(op.name, op.isDir, op.isImplicit, op.comment);
    var err := z.AddEntry(f);
    AddOutcome(N, op, z.Names(), z.Valid(), err);
  }

  lemma AddOutcome(N: seq<string>, op: Op, names: seq<string>, valid: bool, err: Option<Error>)
    requires op.Add? && err == AddError(Keys(N), Clean(op.name), op.isDir, op.comment)
    requires names == if err.Some? then N else WithEntry(N, Clean(op.name), op.isDir)
    requires valid == (err.Some? || !(op.isDir && Clean(op.name) + "/" in Keys(N)))
    ensures names == AfterOp(N, op) && valid == Harmless(N, op)
  {
  }

  method PerformRemove(z: Zip, op: Op)
    requires op.Remove? && z.Valid()
    modifies z
    ensures z.Names() == AfterOp(old(z.Names()), op) && z.Valid() == Harmless(old(z.Names()), op)
    ensures forall x :: x in z.files ==> x in old(z.files)
  {
    KeysAreNames(z);
    var deleted, err := z.Remove(op.name);
  }

  /** What a renaming that was done has made of the names. */
  lemma TransformedNames(z: Zip, N: seq<string>, key: string, path: string)
    requires z.Transformed(Keys(N), N, NameOf(key), EndsInSlash(key), path) && !Stays(N, key, path)
    ensures z.Names() == WithPath(N, key, path) && z.Valid() == PathHarmless(N, key, path)
  {
  }

  method PerformRename(z: Zip, op: Op)
    requires op.Rename? && z.Valid()
    modifies z, set x | x in z.files
    ensures z.Names() == AfterOp(old(z.Names()), op) && z.Valid() == Harmless(old(z.Names()), op)
    ensures forall x :: x in z.files ==> x in old(z.files) || fresh(x)
  {
    ghost var N := z.Names();
    ghost var t := Target(N, op);
    KeysAreNames(z);
    if t.Some? {
      FoundEntry(z, t.value.0);
    }
    var err := z.Rename(op.name, op.newName);
    Outcome(z, N, op);
  }

  method PerformMove(z: Zip, op: Op)
    requires op.Move? && z.Valid()
    modifies z, set x | x in z.files
    ensures z.Names() == AfterOp(old(z.Names()), op) && z.Valid() == Harmless(old(z.Names()), op)
    ensures forall x :: x in z.files ==> x in old(z.files) || fresh(x)
  {
    ghost var N := z.Names();
    ghost var t := Target(N, op);
    KeysAreNames(z);
    if t.Some? {
      FoundEntry(z, t.value.0);
    }
    var err := z.Move(op.name, op.newDir);
    Outcome(z, N, op);
  }

  /** Both ways a renaming or a move can end. */
  lemma Outcome(z: Zip, N: seq<string>, op: Op)
    requires op.Rename? || op.Move?
    requires var t := Target(N, op);
             if t.None? || Stays(N, t.value.0, t.value.1) then z.Names() == N && z.Valid()
             else z.Transformed(Keys(N), N, NameOf(t.value.0), EndsInSlash(t.value.0), t.value.1)
    ensures z.Names() == AfterOp(N, op) && z.Valid() == Harmless(N, op)
  {
    var t := Target(N, op);
    if t.Some? && !Stays(N, t.value.0, t.value.1) {
      TransformedNames(z, N, t.value.0, t.value.1);
    }
  }

  method PerformLoad(z: Zip, op: Op)
    requires op.Load? && z.Valid() && OpOk(op)
    modifies z, set x | x in z.files
    ensures z.Names() == AfterOp(old(z.Names()), op) && z.Valid() == Harmless(old(z.Names()), op)
    ensures forall x :: x in z.files ==> x in old(z.files) || fresh(x)
  {
    KeysAreNames(z);
    ghost var N := z.Names();
    var f := new File(op.name, op.isDir, false, "");
    ghost var name, added := LoadEntry(z, f, op, N);
    LoadOutcome(N, op, z.Names(), z.Valid(), name, added);
  }

  method LoadEntry(z: Zip, f: File, op: Op, ghost N: seq<string>) returns (ghost name: string, ghost added: bool)
    requires op.Load? && z.Valid() && OpOk(op) && N == z.Names() && z.lookup.Keys == Keys(N)
    requires f !in z.files && f.name == op.name && f.isDir == op.isDir
    modifies z, f`name
    ensures LoadDone(N, op, name, added) && z.Valid() == LoadHarmless(N, op, name, added)
    ensures z.Names() == if LoadAdds(N, op, added) then WithEntry(N, name, op.isDir) else N
    ensures forall x :: x in z.files ==> x in old(z.files) || x == f || fresh(x)
  {
    assert f.EntryName() == NewPrefix(op.isDir, op.name);
    var a, err := z.AddLoadedFile(f, op.action, op.newName);
    name, added := f.name, a;
  }

  /** An entry comes in, and does not take the place of another one. */
  predicate LoadAdds(N: seq<string>, op: Op, added: bool)
    requires op.Load?
  {
    added && (NewPrefix(op.isDir, op.name) !in Keys(N) || op.action.Rename?)
  }

  predicate LoadHarmless(N: seq<string>, op: Op, name: string, added: bool)
    requires op.Load?
  {
    LoadAdds(N, op, added) ==> NewPrefix(!op.isDir, name) !in Keys(N)
  }

  /** Whether an entry comes in, and under which name. */
  predicate LoadDone(N: seq<string>, op: Op, name: string, added: bool)
    requires op.Load?
  {
    if NewPrefix(op.isDir, op.name) !in Keys(N) then (added <==> !ParentIsFile(Keys(N), op.name)) && name == op.name
    else
      match op.action
      case Replace => added
      case Rename => (added <==> RenamedError(Keys(N), op.newName, op.isDir).None?) && (added ==> name == op.newName)
      case _ => !added
  }

  /** All ways a load can end. */
  lemma LoadOutcome(N: seq<string>, op: Op, names: seq<string>, valid: bool, name: string, added: bool)
    requires op.Load? && LoadDone(N, op, name, added) && valid == LoadHarmless(N, op, name, added)
    requires names == if LoadAdds(N, op, added) then WithEntry(N, name, op.isDir) else N
    ensures names == AfterOp(N, op) && valid == Harmless(N, op)
  {
  }

  /** One operation changes the names as specified, whether it returns an error or not, and leaves the
      index valid exactly if it was harmless. */
  method Perform(z: Zip, op: Op)
    requires z.Valid() && OpOk(op)
    modifies z, set x | x in z.files
    ensures z.Names() == AfterOp(old(z.Names()), op) && z.Valid() == Harmless(old(z.Names()), op)
    ensures forall x :: x in z.files ==> x in old(z.files) || fresh(x)
  {
    match op
    case Add(_, _, _, _) => PerformAdd(z, op);
    case Remove(_) => PerformRemove(z, op);
    case Rename(_, _) => PerformRename(z, op);
    case Move(_, _) => PerformMove(z, op);
    case Load(_, _, _, _) => PerformLoad(z, op);
  }

  /** A run over the names `N` after `done` operations, the last of which may have been harmful. */
  ghost predicate RunAt(N: seq<string>, ops: seq<Op>, done: nat, names: seq<string>, valid: bool) {
    && done <= |ops| && names == After(N, ops[..done])
    && if valid then done <= HarmlessPrefix(N, ops) else done == HarmlessPrefix(N, ops) + 1
  }

  lemma RunNext(N: seq<string>, ops: seq<Op>, done: nat, names: seq<string>)
    requires RunAt(N, ops, done, names, true) && done < |ops|
    ensures RunAt(N, ops, done + 1, AfterOp(names, ops[done]), Harmless(names, ops[done]))
  {
    GoodPrefixIs(AfterOp, Harmless, N, ops, done);
    assert ops[..done + 1][..done] == ops[..done];
  }

  lemma RunStart(N: seq<string>, ops: seq<Op>)
    ensures RunAt(N, ops, 0, N, true)
  {
    assert ops[..0] == [];
  }

  /** Over every sequence of operations, with every conflict handler, the index is valid (list and map
      agree, the tree is closed under parents, and no name is both a file and a directory) up to the
      first operation that is not harmless, and invalid after that one, where the run stops.  Which one
      that is follows from the names before the run, and so do the names after it. */
  method Run(z: Zip, ops: seq<Op>) returns (done: nat, valid: bool)
    requires z.Valid() && forall op :: op in ops ==> OpOk(op)
    modifies z, set x | x in z.files
    ensures z.Valid() == valid && (valid <==> HarmlessPrefix(old(z.Names()), ops) == |ops|)
    ensures done == if valid then |ops| else HarmlessPrefix(old(z.Names()), ops) + 1
    ensures z.Names() == After(old(z.Names()), ops[..done])
  {
    ghost var N := z.Names();
    done, valid := 0, true;
    RunStart(N, ops);
    while done < |ops| && valid
      invariant z.Valid() == valid && RunAt(N, ops, done, z.Names(), valid)
      invariant forall x :: x in z.files ==> x in old(z.files) || fresh(x)
    {
      RunNext(N, ops, done, z.Names());
      assert ops[done] in ops;
      valid := Harmless(z.Names(), ops[done]);
      Perform(z, ops[done]);
      done := done + 1;
    }
  }
}
