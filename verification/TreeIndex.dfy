/** The archive index of `Zip`: the ordered list `files` and the map `lookup`, and the operations
    that change them. */
module TreeIndex {
  import opened Wrappers
  import opened Paths
  import opened CleanPaths

  const MAX_STRING_LENGTH: nat := 65535

  datatype Error = InvalidName | TooLong | CommentTooLong | Duplicate | NotFound | MoveIntoItself

  class File {
    var name: string
    const isDir: bool
    const isImplicit: bool
    const comment: string

    constructor (name: string, isDir: bool, isImplicit: bool, comment: string)
      ensures this.name == name && this.isDir == isDir && this.isImplicit == isImplicit && this.comment == comment
    {
      this.name, this.isDir, this.isImplicit, this.comment := name, isDir, isImplicit, comment;
    }

    /** The name under which the entry is stored: directories end in a slash. */
    function EntryName(): string
      reads this
    {
      if isDir then name + "/" else name
    }
  }

  // ---------------------------------------------------------------- outcomes, as functions of the names

  /** The error of adding an entry of the cleaned name `p`, if any. */
  function AddError(K: set<string>, p: string, isDir: bool, comment: string): Option<Error> {
    if p == "" || p == "." then Some(InvalidName)
    else if |p| + (if isDir then 1 else 0) > MAX_STRING_LENGTH then Some(TooLong)
    else if |comment| > MAX_STRING_LENGTH then Some(CommentTooLong)
    else if p in K || (!isDir && p + "/" in K) then Some(Duplicate)
    else if ParentIsFile(K, p) then Some(Duplicate)
    else None
  }

  predicate MovedNameTooLong(K: set<string>, from: string, to: string) {
    exists n | n in K :: HasPrefix(n, from) && |Subst(n, from, to)| > MAX_STRING_LENGTH
  }

  /** The error of giving the entry `name` the new path `path`, if any. */
  function TransformError(K: set<string>, name: string, isDir: bool, path: string): Option<Error> {
    var from, to := if isDir then name + "/" else name, if isDir then path + "/" else path;
    if name == path then None
    else if path in K || path + "/" in K then Some(Duplicate)
    else if isDir && HasPrefix(path + "/", from) then Some(MoveIntoItself)
    else if MovedNameTooLong(K, from, to) then Some(TooLong)
    else if ParentIsFile(K, path) then Some(Duplicate)
    else None
  }

  /** The fast path strips a leading slash only; names with backslashes or doubled slashes are cleaned. */
  function NormalizePath(name: string): string {
    if '\\' in name || !NoSlashPair(name) then Clean(name)
    else if name != "" && name[0] == '/' then name[1..] else name
  }

  lemma NormalizedDir(dir: string)
    ensures !Rooted(NormalizePath(dir))
  {
    if '\\' in dir || !NoSlashPair(dir) {
      CleanIsCanonical(dir);
    } else if |dir| > 1 {
      assert !SlashPair(dir, 0);
    }
  }

  /** The name under which `findEntry` finds an entry, if any. */
  function FindName(K: set<string>, name: string): Option<string> {
    var key := NormalizePath(name);
    if key in K then Some(key) else if key + "/" in K then Some(key + "/") else None
  }

  function DirEntries(ds: seq<string>): seq<string> {
    seq(|ds|, i requires 0 <= i < |ds| => ds[i] + "/")
  }

  function SubstAll(names: seq<string>, from: string, to: string): seq<string> {
    seq(|names|, i requires 0 <= i < |names| => Subst(names[i], from, to))
  }

  /** The entries whose name is (`hit`) or is not removed by `key`, in order. */
  function Split(fs: seq<File>, names: seq<string>, key: string, hit: bool): seq<File>
    requires |fs| == |names|
  {
    if fs == [] then []
    else
      var n := |fs| - 1;
      Split(fs[..n], names[..n], key, hit) + if Removed(names[n], key) == hit then [fs[n]] else []
  }

  lemma {:induction false} SplitMembers(fs: seq<File>, names: seq<string>, key: string, hit: bool, f: File)
    requires |fs| == |names|
    ensures f in Split(fs, names, key, hit) <==>
            exists i :: 0 <= i < |fs| && fs[i] == f && Removed(names[i], key) == hit
    ensures |Split(fs, names, key, hit)| <= |fs|
  {
    if fs != [] {
      var n := |fs| - 1;
      SplitMembers(fs[..n], names[..n], key, hit, f);
    }
  }

  lemma {:induction false} SplitDistinct(fs: seq<File>, names: seq<string>, key: string, hit: bool)
    requires |fs| == |names|
    requires forall i, j :: 0 <= i < j < |fs| ==> fs[i] != fs[j]
    ensures var s := Split(fs, names, key, hit); forall i, j :: 0 <= i < j < |s| ==> s[i] != s[j]
  {
    if fs != [] {
      var n := |fs| - 1;
      SplitDistinct(fs[..n], names[..n], key, hit);
      SplitMembers(fs[..n], names[..n], key, hit, fs[n]);
    }
  }

  /** The missing parents can be appended one after the other, and complete the tree. */
  lemma ParentsReady(K: set<string>, path: string, ds: seq<string>)
    requires Canonical(path) && ds == MissingDirs(K, path) && TreeOk(K) && !ParentIsFile(K, path)
    ensures forall i :: 0 <= i < |ds| ==> Canonical(ds[i]) && ds[i] + "/" !in K
    ensures forall i, j :: 0 <= i < j < |ds| ==> |ds[i]| < |ds[j]|
    ensures TreeOk(WithDirs(K, ds)) && ParentsIn(WithDirs(K, ds), path)
  {
    MissingDirsShorter(K, path);
    MissingDirsComplete(K, path);
  }

  /** One step upwards: `missing` holds the end of `ds` backwards. */
  lemma WalkStep(ds: seq<string>, missing: seq<string>, above: seq<string>, dir: string)
    requires |ds| >= |missing| && forall i :: 0 <= i < |missing| ==> missing[i] == ds[|ds| - 1 - i]
    requires ds[..|ds| - |missing|] == above + [dir]
    ensures |ds| >= |missing| + 1
    ensures forall i :: 0 <= i < |missing| + 1 ==> (missing + [dir])[i] == ds[|ds| - 1 - i]
    ensures ds[..|ds| - |missing| - 1] == above
  {
    var rest := ds[..|ds| - |missing|];
    assert rest[|rest| - 1] == dir == ds[|ds| - |missing| - 1];
    assert ds[..|ds| - |missing| - 1] == rest[..|rest| - 1];
  }

  /** The missing parents are new one after the other. */
  lemma NextDir(K: set<string>, ds: seq<string>, k: nat)
    requires k < |ds| && ds[k] + "/" !in K
    requires forall i, j :: 0 <= i < j < |ds| ==> |ds[i]| < |ds[j]|
    ensures ds[k] + "/" !in WithDirs(K, ds[..k])
    ensures WithDirs(K, ds[..k + 1]) == WithDirs(K, ds[..k]) + {ds[k] + "/"}
    ensures DirEntries(ds[..k + 1]) == DirEntries(ds[..k]) + [ds[k] + "/"]
  {
    WithDirsAre(K, ds[..k], ds[k] + "/");
    assert forall i :: 0 <= i < k ==> |ds[i] + "/"| < |ds[k] + "/"|;
    assert ds[..k + 1][..k] == ds[..k];
  }

  /** The missing parents of `p` do not include `p` itself, as a file or a directory. */
  lemma ParentsAreNotSelf(K: set<string>, p: string)
    requires Canonical(p)
    ensures p in WithDirs(K, MissingDirs(K, p)) <==> p in K
    ensures p + "/" in WithDirs(K, MissingDirs(K, p)) <==> p + "/" in K
  {
    var ds := MissingDirs(K, p);
    MissingDirsShorter(K, p);
    WithDirsAre(K, ds, p);
    WithDirsAre(K, ds, p + "/");
    assert forall i :: 0 <= i < |ds| ==> |ds[i] + "/"| < |p + "/"| && EndsInSlash(ds[i] + "/");
  }

  /** The error of adding a loaded entry under the name that a conflict handler has given. */
  function RenamedError(K: set<string>, name: string, isDir: bool): Option<Error> {
    if name == "" then Some(InvalidName)
    else if ParentIsFile(K, name) || NewPrefix(isDir, name) in K then Some(Duplicate)
    else None
  }

  /** An entry that exists has all its parents. */
  lemma PresentHasParents(K: set<string>, p: string, isDir: bool)
    requires TreeOk(K) && NewPrefix(isDir, p) in K && Canonical(p)
    ensures MissingDirs(K, p) == [] && !ParentIsFile(K, p)
  {
    var d, n := Dir(p), NewPrefix(isDir, p);
    TreeHasParents(K, n);
    if d != "" {
      assert p[..|d| + 1] == d + "/" && n[..|d| + 1] == p[..|d| + 1];
      assert SlashAt(n, |d|) && |d| < |n| - 1;
    }
  }

  /** A new entry below existing parents keeps the tree exactly when its name is not taken by an
      entry of the other kind. */
  lemma InsertTreeIff(K: set<string>, p: string, isDir: bool)
    requires TreeOk(K) && Canonical(p) && ParentsIn(K, p)
    requires (if isDir then p + "/" else p) !in K
    ensures TreeOk(K + {if isDir then p + "/" else p}) <==> (if isDir then p else p + "/") !in K
  {
    if TreeOk(K + {if isDir then p + "/" else p}) {
      AddKeepsTreeOnlyIf(K, p, isDir);
    } else if p !in K && p + "/" !in K {
      AddKeepsTree(K, p, isDir);
    }
  }

  function SplitNames(names: seq<string>, key: string): seq<string> {
    if names == [] then []
    else
      var n := |names| - 1;
      SplitNames(names[..n], key) + if Removed(names[n], key) then [] else [names[n]]
  }

  /** The map while the compaction loop has seen the names `seen`. */
  ghost function Without(m: map<string, File>, seen: seq<string>, key: string): map<string, File> {
    map n | n in m && !(n in seen && Removed(n, key)) :: m[n]
  }

  lemma SplitStep(fs: seq<File>, names: seq<string>, key: string, i: nat)
    requires |fs| == |names| && i < |fs|
    ensures Split(fs[..i + 1], names[..i + 1], key, true)
         == Split(fs[..i], names[..i], key, true) + if Removed(names[i], key) then [fs[i]] else []
    ensures Split(fs[..i + 1], names[..i + 1], key, false)
         == Split(fs[..i], names[..i], key, false) + if Removed(names[i], key) then [] else [fs[i]]
  {
    assert fs[..i + 1][..i] == fs[..i] && names[..i + 1][..i] == names[..i];
  }

  lemma WithoutStep(m: map<string, File>, names: seq<string>, key: string, i: nat)
    requires i < |names|
    ensures Removed(names[i], key) ==>
              Without(m, names[..i + 1], key) ==
              map n | n in Without(m, names[..i], key) && n != names[i] :: Without(m, names[..i], key)[n]
    ensures !Removed(names[i], key) ==> Without(m, names[..i + 1], key) == Without(m, names[..i], key)
  {
    assert names[..i + 1] == names[..i] + [names[i]];
  }

  /** Writing a kept entry over the already visited part of the list. */
  lemma InPlace(fs: seq<File>, before: seq<File>, n: nat, i: nat)
    requires n <= i < |fs| == |before| && fs[i..] == before[i..]
    ensures fs[i + 1..] == before[i + 1..]
    ensures fs[n := fs[i]][i + 1..] == before[i + 1..]
    ensures fs[n := fs[i]][..n + 1] == fs[..n] + [fs[i]]
  {
    assert fs[i + 1..] == fs[i..][1..] && before[i + 1..] == before[i..][1..];
    assert fs[n := fs[i]][i + 1..] == fs[i + 1..];
  }

  /** The lists of the remaining entries and of their names run in parallel. */
  lemma {:induction false} SplitOf(fs: seq<File>, names: seq<string>, key: string)
    requires |fs| == |names|
    ensures var (s, t) := (Split(fs, names, key, false), SplitNames(names, key));
            && |s| == |t|
            && forall i :: 0 <= i < |s| ==>
                      exists j :: 0 <= j < |fs| && s[i] == fs[j] && t[i] == names[j] && !Removed(names[j], key)
  {
    if fs != [] {
      var n := |fs| - 1;
      SplitOf(fs[..n], names[..n], key);
      var (s, t) := (Split(fs[..n], names[..n], key, false), SplitNames(names[..n], key));
      forall i | 0 <= i < |s|
        ensures exists j :: 0 <= j < |fs| && s[i] == fs[j] && t[i] == names[j] && !Removed(names[j], key)
      {
        var j :| 0 <= j < n && s[i] == fs[..n][j] && t[i] == names[..n][j] && !Removed(names[..n][j], key);
        assert s[i] == fs[j] && t[i] == names[j];
      }
    }
  }

  lemma {:induction false} SplitKeeps(names: seq<string>, key: string, j: nat)
    requires j < |names| && !Removed(names[j], key)
    ensures names[j] in SplitNames(names, key)
  {
    if j < |names| - 1 {
      SplitKeeps(names[..|names| - 1], key, j);
    }
  }

  /** What is left after a removal still agrees with the map. */
  lemma SplitConsistent(fs: seq<File>, names: seq<string>, m: map<string, File>, key: string)
    requires LinkedAs(fs, names, m) && Distinct(fs)
    ensures Distinct(Split(fs, names, key, false))
    ensures LinkedAs(Split(fs, names, key, false), SplitNames(names, key), map n | n in m && !Removed(n, key) :: m[n])
  {
    SplitDistinct(fs, names, key, false);
    SplitOf(fs, names, key);
    forall n | n in m && !Removed(n, key)
      ensures n in SplitNames(names, key)
    {
      var j :| 0 <= j < |names| && names[j] == n;
      SplitKeeps(names, key, j);
    }
  }

  // ---------------------------------------------------------------- replacing a prefix

  function NewPrefix(isDir: bool, path: string): string {
    if isDir then path + "/" else path
  }

  /** No new name is an old name, and no two entries get the same name. */
  ghost predicate FreshTarget(K: set<string>, from: string, to: string) {
    && (forall a :: a in K && HasPrefix(a, from) ==> Subst(a, from, to) !in K)
    && (forall a, b :: a in K && b in K && Subst(a, from, to) == Subst(b, from, to) ==> a == b)
  }

  /** Replacing the prefix keeps the trailing slash of directories and adds none to files. */
  lemma KindKept(f: string, fIsDir: bool, e: string, eIsDir: bool, path: string)
    requires Canonical(f) && Canonical(e) && Canonical(path)
    requires HasPrefix(NewPrefix(eIsDir, e), NewPrefix(fIsDir, f))
    ensures EndsInSlash(Subst(NewPrefix(eIsDir, e), NewPrefix(fIsDir, f), NewPrefix(fIsDir, path))) <==> eIsDir
  {
    var n, from, to := NewPrefix(eIsDir, e), NewPrefix(fIsDir, f), NewPrefix(fIsDir, path);
    if |n| == |from| {
      assert n == from && to + n[|from|..] == to;
    } else {
      assert (to + n[|from|..])[|to + n[|from|..]| - 1] == n[|n| - 1];
    }
  }

  /** A name in a tree, without the slash of a directory, is clean. */
  lemma WithoutSlash(name: string, isDir: bool)
    requires WellFormed(NewPrefix(isDir, name))
    requires !isDir ==> !EndsInSlash(name)
    ensures Canonical(name)
  {
    if isDir {
      var n := name + "/";
      assert name != "" by { assert n[0] != '/'; }
      assert n[0] == name[0];
      assert !SlashPair(n, |name| - 1);
      forall i | 0 <= i < |name| - 1
        ensures !SlashPair(name, i)
      {
        assert !SlashPair(n, i);
      }
    }
  }

  /** The names in the middle of the rename loop. */
  function Partly(names: seq<string>, i: nat, from: string, to: string): seq<string> {
    seq(|names|, j requires 0 <= j < |names| => if j < i then Subst(names[j], from, to) else names[j])
  }

  lemma PartlyStep(N: seq<string>, i: nat, from: string, to: string)
    requires i < |N|
    ensures Partly(N, i + 1, from, to) == Partly(N, i, from, to)[i := Subst(N[i], from, to)]
    ensures Partly(N, i, from, to)[i] == N[i]
  {
  }

  lemma PartlyEnds(N: seq<string>, from: string, to: string)
    ensures Partly(N, 0, from, to) == N && Partly(N, |N|, from, to) == SubstAll(N, from, to)
  {
  }

  /** In the middle of the rename loop the next new name is not in use. */
  lemma TargetUnused(N: seq<string>, K: set<string>, i: nat, from: string, to: string)
    requires FreshTarget(K, from, to) && (forall n :: n in N ==> n in K) && Distinct(N)
    requires i < |N| && HasPrefix(N[i], from)
    ensures Subst(N[i], from, to) !in Partly(N, i, from, to)
  {
    forall j | 0 <= j < |N|
      ensures Partly(N, i, from, to)[j] != Subst(N[i], from, to)
    {
      assert N[j] in N && N[i] in N;
    }
  }

  /** In the middle of the loop the next new name is never in use. */
  predicate Unused(N: seq<string>, from: string, to: string) {
    forall i | 0 <= i < |N| && HasPrefix(N[i], from) :: Subst(N[i], from, to) !in Partly(N, i, from, to)
  }

  /** When the renaming of a file can be done: the new name of each entry that begins with the same
      characters is free at its turn, the parents of the new place are not among these entries, and no
      new name meets an old one of the other kind. */
  predicate MoveFree(N: seq<string>, S: set<string>, from: string, to: string) {
    Unused(N, from, to) && ParentsStay(from, to) && KindsFree(S, from, to)
  }

  lemma TargetsUnused(N: seq<string>, K: set<string>, from: string, to: string)
    requires FreshTarget(K, from, to) && (forall n :: n in N ==> n in K) && Distinct(N)
    ensures Unused(N, from, to)
  {
    forall i | 0 <= i < |N| && HasPrefix(N[i], from)
      ensures Subst(N[i], from, to) !in Partly(N, i, from, to)
    {
      TargetUnused(N, K, i, from, to);
    }
  }

  /** What renaming means: a directory takes its whole subtree along, a file goes alone. */
  function Intended(names: seq<string>, from: string, to: string, isDir: bool): seq<string> {
    seq(|names|, i requires 0 <= i < |names| =>
      if isDir then Subst(names[i], from, to) else if names[i] == from then to else names[i])
  }

  lemma RenamingNamesAt(N: seq<string>, ds: seq<string>, from: string, to: string, isDir: bool, i: nat)
    requires i < |N| + |ds|
    ensures var (A, B) := (SubstAll(N + DirEntries(ds), from, to), Intended(N, from, to, isDir) + DirEntries(ds));
            && |A| == |B| == |N| + |ds|
            && (i < |N| ==> A[i] == Subst(N[i], from, to) && B[i] == Intended(N, from, to, isDir)[i])
            && (i >= |N| ==> A[i] == Subst(ds[i - |N|] + "/", from, to) && B[i] == ds[i - |N|] + "/")
  {
  }

  lemma RenamingExact(K: set<string>, N: seq<string>, ds: seq<string>, from: string, to: string, isDir: bool)
    requires forall n :: n in N ==> n in K
    requires isDir ==> forall i :: 0 <= i < |ds| ==> !HasPrefix(ds[i] + "/", from)
    requires isDir || (NoStray(WithDirs(K, ds), from) && forall i :: 0 <= i < |ds| ==> ds[i] + "/" != from)
    ensures SubstAll(N + DirEntries(ds), from, to) == Intended(N, from, to, isDir) + DirEntries(ds)
  {
    var A, B := SubstAll(N + DirEntries(ds), from, to), Intended(N, from, to, isDir) + DirEntries(ds);
    assert |A| == |B|;
    forall i | 0 <= i < |A|
      ensures A[i] == B[i]
    {
      RenamingNamesAt(N, ds, from, to, isDir, i);
      var n := if i < |N| then N[i] else ds[i - |N|] + "/";
      assert i < |N| ==> N[i] in N;
      WithDirsAre(K, ds, n);
      assert Subst(from, from, to) == to + from[|from|..] == to;
    }
  }

  lemma RenamingInexact(K: set<string>, N: seq<string>, ds: seq<string>, from: string, to: string)
    requires forall n :: n in K ==> n in N
    requires from in K && from != to && !NoStray(WithDirs(K, ds), from)
    ensures SubstAll(N + DirEntries(ds), from, to) != Intended(N, from, to, false) + DirEntries(ds)
  {
    WithDirsAre(K, ds, from);
    FileRenameExact(WithDirs(K, ds), from, to);
    var n :| n in WithDirs(K, ds) && n != from && Subst(n, from, to) != n;
    WithDirsAre(K, ds, n);
    if n in K {
      var i :| 0 <= i < |N| && N[i] == n;
      InexactAt(N, ds, from, to, i, n);
    } else {
      var i :| 0 <= i < |ds| && ds[i] + "/" == n;
      InexactAt(N, ds, from, to, |N| + i, n);
    }
  }

  lemma InexactAt(N: seq<string>, ds: seq<string>, from: string, to: string, i: nat, n: string)
    requires i < |N| + |ds| && n == (if i < |N| then N[i] else ds[i - |N|] + "/")
    requires n != from && Subst(n, from, to) != n
    ensures SubstAll(N + DirEntries(ds), from, to) != Intended(N, from, to, false) + DirEntries(ds)
  {
    RenamingNamesAt(N, ds, from, to, false, i);
  }

  /** The textual replacement over the old entries and the new parents is the intended renaming
      exactly when a directory is renamed or no other name starts with the name of the file. */
  lemma RenamingExactIff(K: set<string>, N: seq<string>, ds: seq<string>, from: string, to: string, isDir: bool)
    requires forall n :: n in K <==> n in N
    requires from in K && from != to
    requires isDir ==> forall i :: 0 <= i < |ds| ==> !HasPrefix(ds[i] + "/", from)
    requires forall i :: 0 <= i < |ds| ==> ds[i] + "/" != from
    ensures SubstAll(N + DirEntries(ds), from, to) == Intended(N, from, to, isDir) + DirEntries(ds)
       <==> isDir || NoStray(WithDirs(K, ds), from)
  {
    if isDir || NoStray(WithDirs(K, ds), from) {
      RenamingExact(K, N, ds, from, to, isDir);
    } else {
      RenamingInexact(K, N, ds, from, to);
    }
  }

  /** The parents created for a directory's new place are not part of what is moved. */
  lemma NewParentsOutside(K: set<string>, path: string, from: string)
    requires Canonical(path) && !HasPrefix(path + "/", from)
    ensures forall i :: 0 <= i < |MissingDirs(K, path)| ==> !HasPrefix(MissingDirs(K, path)[i] + "/", from)
  {
    MissingDirsShorter(K, path);
    forall i | 0 <= i < |MissingDirs(K, path)|
      ensures !HasPrefix(MissingDirs(K, path)[i] + "/", from)
    {
      var d := MissingDirs(K, path)[i];
      assert HasPrefix(path + "/", path) by { assert (path + "/")[..|path|] == path; }
      PrefixOfPrefix(path + "/", path, d + "/");
      PrefixOfPrefix(path + "/", d + "/", from);
    }
  }

  lemma RenamingIntended(K: set<string>, N: seq<string>, f: string, isDir: bool, path: string)
    requires forall n :: n in K <==> n in N
    requires NewPrefix(isDir, f) in K && f != path && Canonical(path) && Canonical(f)
    requires TransformError(K, f, isDir, path).None?
    ensures var from, to, ds := NewPrefix(isDir, f), NewPrefix(isDir, path), MissingDirs(K, path);
            (SubstAll(N + DirEntries(ds), from, to) == Intended(N, from, to, isDir) + DirEntries(ds)
             <==> isDir || NoStray(WithDirs(K, ds), from))
  {
    var from, to, ds := NewPrefix(isDir, f), NewPrefix(isDir, path), MissingDirs(K, path);
    MissingDirsShorter(K, path);
    if isDir {
      NewParentsOutside(K, path, from);
      assert from[..|f|] == f && to[..|path|] == path;
    }
    RenamingExactIff(K, N, ds, from, to, isDir);
  }

  /** What holds of a clean path holds of the directory entry for it. */
  lemma DirOfPath(K: set<string>, path: string, to: string)
    requires Canonical(path) && ParentsIn(K, path) && to == path + "/"
    ensures WellFormed(to) && ParentsIn(K, to) && to[..|to| - 1] == path
  {
    assert to[..|to| - 1] == path;
    forall i | 0 <= i < |to| - 1
      ensures !SlashPair(to, i)
    {
      if i < |path| - 1 { assert !SlashPair(path, i); }
    }
    forall k | SlashAt(to, k) && k < |to| - 1
      ensures to[..k + 1] in K
    {
      assert SlashAt(path, k) && to[..k + 1] == path[..k + 1];
    }
  }

  /** With its parents in place, the target of a renaming passes every condition of the tree lemmas. */
  lemma TargetReady(K: set<string>, f: string, isDir: bool, path: string)
    requires TreeOk(K) && NewPrefix(isDir, f) in K && Canonical(f) && Canonical(path)
    requires TransformError(K, f, isDir, path).None? && f != path
    requires TreeOk(WithDirs(K, MissingDirs(K, path))) && ParentsIn(WithDirs(K, MissingDirs(K, path)), path)
    ensures var K1, from, to := WithDirs(K, MissingDirs(K, path)), NewPrefix(isDir, f), NewPrefix(isDir, path);
            if isDir then FreshTarget(K1, from, to) && TreeOk(Image(K1, from, to)) else FileMoveOk(K1, from, to)
  {
    var ds := MissingDirs(K, path);
    var K1, from, to := WithDirs(K, ds), NewPrefix(isDir, f), NewPrefix(isDir, path);
    ParentsAreNotSelf(K, path);
    WithDirsAre(K, ds, from);
    if isDir {
      DirOfPath(K1, path, to);
      DirectoryTargetFresh(K1, from, to);
      MoveKeepsTree(K1, from, to);
    }
  }

  /** The checks before moving a directory make every new name fresh. */
  lemma DirectoryTargetFresh(K: set<string>, from: string, to: string)
    requires MoveOk(K, from, to)
    ensures FreshTarget(K, from, to)
  {
    forall a | a in K && HasPrefix(a, from)
      ensures Subst(a, from, to) !in K
    {
      assert Subst(a, from, to)[..|to|] == to;
      MovedNamesFresh(K, to, Subst(a, from, to));
    }
    forall a, b | a in K && b in K && Subst(a, from, to) == Subst(b, from, to)
      ensures a == b
    {
      SubstInjective(K, from, to, a, b);
    }
  }

  /** Renaming the file "a" to "c" also renames its neighbour "ab", and the index stays valid. */
  lemma NeighbourRenamed()
    ensures TreeOk({"a", "ab"}) && TransformError({"a", "ab"}, "a", false, "c") == None
    ensures SubstAll(["a", "ab"], "a", "c") == ["c", "cb"]
    ensures Intended(["a", "ab"], "a", "c", false) == ["c", "ab"]
    ensures MoveFree(["a", "ab"], {"a", "ab"}, "a", "c")
  {
    var (N, S) := (["a", "ab"], {"a", "ab"});
    SubstExamples();
    assert Dir("c") == "";
    assert !MovedNameTooLong(S, "a", "c");
    var r := SubstAll(N, "a", "c");
    assert r[0] == "c" && r[1] == "cb";
    assert Partly(N, 0, "a", "c") == N && Partly(N, 1, "a", "c") == ["c", "ab"];
    assert OtherKind("c") == "c/" && OtherKind("cb") == "cb/";
  }

  /** Next to a file "cb" the same renaming is accepted as well: two entries get the name "cb", and the
      index is broken. */
  lemma NeighbourCollides()
    ensures TreeOk({"a", "ab", "cb"}) && TransformError({"a", "ab", "cb"}, "a", false, "c") == None
    ensures SubstAll(["a", "ab", "cb"], "a", "c") == ["c", "cb", "cb"]
    ensures !MoveFree(["a", "ab", "cb"], {"a", "ab", "cb"}, "a", "c")
  {
    var (N, S) := (["a", "ab", "cb"], {"a", "ab", "cb"});
    SubstExamples();
    assert Dir("c") == "" && Subst("cb", "a", "c") == "cb";
    assert !MovedNameTooLong(S, "a", "c");
    var r := SubstAll(N, "a", "c");
    assert r[0] == "c" && r[1] == "cb" && r[2] == "cb";
    assert HasPrefix(N[1], "a") && Partly(N, 1, "a", "c")[2] == "cb";
  }

  lemma SubstExamples()
    ensures Subst("a", "a", "c") == "c" && Subst("ab", "a", "c") == "cb"
    ensures Subst("a", "a", "ab/a") == "ab/a" && Subst("ab/", "a", "ab/a") == "ab/ab/"
  {
    assert "a"[1..] == "" && "ab"[1..] == "b" && "ab/"[1..] == "b/";
    assert "c" + "" == "c" && "c" + "b" == "cb" && "ab/a" + "" == "ab/a" && "ab/a" + "b/" == "ab/ab/";
  }

  lemma MissingDirsExample()
    ensures MissingDirs({"a"}, "ab/a") == ["ab"] && WithDirs({"a"}, ["ab"]) == {"a", "ab/"}
  {
    var p := "ab/a";
    assert p[..2] == "ab";
    assert DirOf(p, 4) == DirOf(p, 3) == "ab";
    assert DirOf("ab", 2) == DirOf("ab", 1) == DirOf("ab", 0) == "";
    assert MissingDirs({"a"}, "ab") == [];
    assert ["ab"][..0] == [] && "ab" + "/" == "ab/";
    assert WithDirs({"a"}, ["ab"]) == WithDirs({"a"}, []) + {"ab/"};
  }

  /** Moving the file "a" into a new directory "ab" is accepted.  It renames that directory to "ab/ab",
      which leaves the moved file without its parent. */
  lemma NewParentRenamed()
    ensures TreeOk({"a"}) && TransformError({"a"}, "a", false, "ab/a") == None
    ensures MissingDirs({"a"}, "ab/a") == ["ab"] && WithDirs({"a"}, ["ab"]) == {"a", "ab/"}
    ensures SubstAll(["a"] + DirEntries(["ab"]), "a", "ab/a") == ["ab/a", "ab/ab/"]
    ensures !TreeOk({"ab/a", "ab/ab/"}) && !MoveFree(["a"] + DirEntries(["ab"]), {"a", "ab/"}, "a", "ab/a")
  {
    MissingDirsExample();
    SubstExamples();
    NewParentAccepted();
    assert "ab" + "/" == "ab/";
    var r := SubstAll(["a"] + DirEntries(["ab"]), "a", "ab/a");
    assert r[0] == "ab/a" && r[1] == "ab/ab/";
    assert "ab/a" in {"ab/a", "ab/ab/"} && SlashAt("ab/a", 2) && |"ab/a"[..3]| == 3;
    assert HasPrefix("ab/a"[..3], "a");
  }

  lemma NewParentAccepted()
    ensures TreeOk({"a"}) && TransformError({"a"}, "a", false, "ab/a") == None
  {
    var p := "ab/a";
    assert p[..2] == "ab";
    assert DirOf(p, 4) == DirOf(p, 3) == "ab";
    assert DirOf("ab", 2) == DirOf("ab", 1) == DirOf("ab", 0) == "";
    SubstExamples();
    assert !MovedNameTooLong({"a"}, "a", p);
  }

  // ---------------------------------------------------------------- list and map

  /** `m` sends exactly the names `names[i]` to the entries `fs[i]`. */
  ghost predicate LinkedAs(fs: seq<File>, names: seq<string>, m: map<string, File>) {
    && |names| == |fs|
    && (forall i :: 0 <= i < |fs| ==> names[i] in m && m[names[i]] == fs[i])
    && (forall n :: n in m ==> n in names)
  }

  ghost predicate Distinct<T>(xs: seq<T>) {
    forall i, j :: 0 <= i < j < |xs| ==> xs[i] != xs[j]
  }

  /** Appending an entry to the list and writing it into the map keeps the two in agreement exactly
      when its name is new: an old entry of that name would stay in the list and lose its key. */
  lemma LinkAppend(fs: seq<File>, names: seq<string>, m: map<string, File>, f: File, n: string)
    requires LinkedAs(fs, names, m) && f !in fs
    ensures LinkedAs(fs + [f], names + [n], m[n := f]) <==> n !in m
  {
    if n in m {
      var i :| 0 <= i < |names| && names[i] == n;
      assert (names + [n])[i] == n && (fs + [f])[i] == fs[i];
    } else {
      forall x | x in m[n := f]
        ensures x in names + [n]
      {
      }
    }
  }

  /** The list determines the map. */
  lemma LinkUnique(fs: seq<File>, names: seq<string>, m: map<string, File>, m': map<string, File>)
    requires LinkedAs(fs, names, m) && LinkedAs(fs, names, m')
    ensures m == m'
  {
    forall n
      ensures n in m <==> n in m'
      ensures n in m && n in m' ==> m[n] == m'[n]
    {
      if n in names {
        var i :| 0 <= i < |names| && names[i] == n;
      }
    }
  }

  lemma NothingAdded(fs: seq<File>, names: seq<string>, m: map<string, File>, fs': seq<File>, names': seq<string>,
                     m': map<string, File>)
    requires LinkedAs(fs, names, m) && LinkedAs(fs', names', m') && fs' <= fs && names == names' + []
    ensures fs == fs' && m == m'
  {
    assert names == names' && fs == fs';
    LinkUnique(fs, names, m, m');
  }

  lemma LinkReplace(fs: seq<File>, names: seq<string>, m: map<string, File>, i: nat, f: File)
    requires LinkedAs(fs, names, m) && Distinct(fs) && f !in fs && i < |fs|
    ensures LinkedAs(fs[i := f], names, m[names[i] := f]) && Distinct(fs[i := f])
  {
    assert forall j :: 0 <= j < |fs| && j != i ==> names[j] != names[i];
  }

  /** One iteration of the rename loop: entry `i` changes its name and its key. */
  lemma Relink(fs: seq<File>, names: seq<string>, m: map<string, File>, i: nat, name: string)
    requires LinkedAs(fs, names, m) && Distinct(fs) && i < |fs|
    requires name !in m
    ensures LinkedAs(fs, names[i := name], (map n | n in m && n != names[i] :: m[n])[name := fs[i]])
  {
    var names', m' := names[i := name], (map n | n in m && n != names[i] :: m[n])[name := fs[i]];
    forall j | 0 <= j < |fs|
      ensures names'[j] in m' && m'[names'[j]] == fs[j]
    {
      if j != i {
        assert names[j] != names[i];
      }
    }
    forall n | n in m'
      ensures n in names'
    {
      if n != name {
        var j :| 0 <= j < |names| && names[j] == n;
        assert names'[j] == n;
      } else {
        assert names'[i] == n;
      }
    }
  }

  /** The map after the rename loop has gone over the entries from `i` on. */
  ghost function MapAfter(fs: seq<File>, N: seq<string>, m: map<string, File>, from: string, to: string,
                          i: nat): map<string, File>
    requires i <= |N| == |fs|
    decreases |N| - i
  {
    if i == |N| then m else MapAfter(fs, N, NextMap(fs, N, m, from, to, i), from, to, i + 1)
  }

  ghost function NextMap(fs: seq<File>, N: seq<string>, m: map<string, File>, from: string, to: string,
                         i: nat): map<string, File>
    requires i < |N| == |fs|
  {
    if HasPrefix(N[i], from) then Rekeyed(m, N[i], Subst(N[i], from, to), fs[i]) else m
  }

  ghost function Rekeyed(m: map<string, File>, name: string, newName: string, f: File): map<string, File> {
    (map n | n in m && n != name :: m[n])[newName := f]
  }

  lemma {:induction false} LinkedFrom(fs: seq<File>, N: seq<string>, m: map<string, File>, from: string, to: string,
                                      i: nat, last: map<string, File>)
    requires i <= |N| == |fs| && LinkedAs(fs, Partly(N, i, from, to), m) && Distinct(fs) && Unused(N, from, to)
    requires last == MapAfter(fs, N, m, from, to, i)
    ensures LinkedAs(fs, SubstAll(N, from, to), last)
    decreases |N| - i
  {
    if i == |N| {
      PartlyEnds(N, from, to);
    } else {
      MapAfterNext(fs, N, m, from, to, i);
      LinkedStep(fs, N, m, from, to, i);
      LinkedFrom(fs, N, NextMap(fs, N, m, from, to, i), from, to, i + 1, last);
    }
  }

  lemma MapAfterNext(fs: seq<File>, N: seq<string>, m: map<string, File>, from: string, to: string, i: nat)
    requires i < |N| == |fs|
    ensures MapAfter(fs, N, m, from, to, i) == MapAfter(fs, N, NextMap(fs, N, m, from, to, i), from, to, i + 1)
  {
  }

  lemma LinkedStep(fs: seq<File>, N: seq<string>, m: map<string, File>, from: string, to: string, i: nat)
    requires i < |N| == |fs| && LinkedAs(fs, Partly(N, i, from, to), m) && Distinct(fs)
    requires HasPrefix(N[i], from) ==> Subst(N[i], from, to) !in Partly(N, i, from, to)
    ensures LinkedAs(fs, Partly(N, i + 1, from, to), NextMap(fs, N, m, from, to, i))
  {
    PartlyStep(N, i, from, to);
    LinkedNext(fs, Partly(N, i, from, to), m, i, Subst(N[i], from, to));
  }

  lemma LinkedNext(fs: seq<File>, names: seq<string>, m: map<string, File>, i: nat, name: string)
    requires LinkedAs(fs, names, m) && Distinct(fs) && i < |fs|
    ensures name !in names ==> LinkedAs(fs, names[i := name], Rekeyed(m, names[i], name, fs[i]))
    ensures name == names[i] ==> names[i := name] == names
  {
    if name !in names {
      Relink(fs, names, m, i, name);
    }
  }

  /** A key that is gone comes back only as a new name. */
  lemma {:induction false} KeyGone(fs: seq<File>, N: seq<string>, m: map<string, File>, from: string, to: string,
                                   key: string, i: nat)
    requires i <= |N| == |fs| && key !in m && forall k :: i <= k < |N| ==> Subst(N[k], from, to) != key
    ensures key !in MapAfter(fs, N, m, from, to, i)
    decreases |N| - i
  {
    if i < |N| {
      KeyGone(fs, N, NextMap(fs, N, m, from, to, i), from, to, key, i + 1);
    }
  }

  /** When an entry moves on, its key is gone. */
  lemma {:induction false} KeyTaken(fs: seq<File>, N: seq<string>, m: map<string, File>, from: string, to: string,
                                    i: nat, j: nat)
    requires i <= j < |N| == |fs| && HasPrefix(N[j], from) && forall k :: j <= k < |N| ==> Subst(N[k], from, to) != N[j]
    ensures N[j] !in MapAfter(fs, N, m, from, to, i)
    decreases j - i
  {
    if i < j {
      KeyTaken(fs, N, NextMap(fs, N, m, from, to, i), from, to, i + 1, j);
    } else {
      KeyGone(fs, N, NextMap(fs, N, m, from, to, j), from, to, N[j], j + 1);
    }
  }

  lemma SubstChanges(n: string, from: string, to: string)
    requires HasPrefix(n, from) && from != to
    ensures Subst(n, from, to) != n
  {
    assert n == from + n[|from|..];
    assert |to| == |from| ==> (to + n[|from|..])[..|to|] == to && (from + n[|from|..])[..|to|] == from;
  }

  /** If a new name is in use at its turn, list and map part for good: by entry `j`, which keeps the name,
      or moves on later and takes the key with it. */
  lemma UsedBreaks(fs: seq<File>, N: seq<string>, m: map<string, File>, from: string, to: string, i: nat, j: nat)
    requires |fs| == |N| && Distinct(fs) && from != to && i < |N| && j < |N| && HasPrefix(N[i], from)
    requires Partly(N, i, from, to)[j] == Subst(N[i], from, to)
    ensures !LinkedAs(fs, SubstAll(N, from, to), MapAfter(fs, N, m, from, to, 0))
  {
    var A, key := SubstAll(N, from, to), Subst(N[i], from, to);
    SubstChanges(N[i], from, to);
    assert j != i && A[i] == key && A[j] == Subst(N[j], from, to);
    if LinkedAs(fs, A, MapAfter(fs, N, m, from, to, 0)) {
      NamesDiffer(fs, A, MapAfter(fs, N, m, from, to, 0), i);
      assert j > i && N[j] == key;
      forall k | j <= k < |N|
        ensures Subst(N[k], from, to) != key
      {
        assert A[k] == Subst(N[k], from, to);
      }
      KeyTaken(fs, N, m, from, to, 0, j);
    }
  }

  lemma NamesDiffer(fs: seq<File>, names: seq<string>, m: map<string, File>, i: nat)
    requires LinkedAs(fs, names, m) && Distinct(fs) && i < |fs|
    ensures forall k :: 0 <= k < |fs| && k != i ==> names[k] != names[i]
  {
    forall k | 0 <= k < |fs| && k != i
      ensures names[k] != names[i]
    {
      assert m[names[i]] == fs[i] && m[names[k]] == fs[k];
    }
  }

  /** List and map still agree after the loop exactly if every new name was free at its turn. */
  lemma LinkedAfterIff(fs: seq<File>, N: seq<string>, m: map<string, File>, from: string, to: string)
    requires LinkedAs(fs, N, m) && Distinct(fs) && from != to
    ensures LinkedAs(fs, SubstAll(N, from, to), MapAfter(fs, N, m, from, to, 0)) <==> Unused(N, from, to)
  {
    if Unused(N, from, to) {
      PartlyEnds(N, from, to);
      LinkedFrom(fs, N, m, from, to, 0, MapAfter(fs, N, m, from, to, 0));
    } else {
      var i :| 0 <= i < |N| && HasPrefix(N[i], from) && Subst(N[i], from, to) in Partly(N, i, from, to);
      var j :| 0 <= j < |N| && Partly(N, i, from, to)[j] == Subst(N[i], from, to);
      UsedBreaks(fs, N, m, from, to, i, j);
    }
  }

  lemma PrefixesDiffer(name: string, path: string, isDir: bool)
    requires name != path
    ensures NewPrefix(isDir, name) != NewPrefix(isDir, path)
  {
    assert (name + "/")[..|name|] == name && (path + "/")[..|path|] == path;
  }

  datatype ConflictAction = Replace | Skip | Fail | Rename | OtherAction

  class Zip {
    var files: seq<File>
    var lookup: map<string, File>

    function Names(): seq<string>
      reads this, files
    {
      seq(|files|, i requires 0 <= i < |files| reads this, files => files[i].EntryName())
    }

    /** The map sends exactly the names of the listed entries to those entries. */
    ghost predicate Linked()
      reads this, files
    {
      LinkedAs(files, Names(), lookup)
    }

    /** The list has no repetition, agrees with the map, and all names are clean. */
    ghost predicate Consistent()
      reads this, files
    {
      && Distinct(files)
      && Linked()
      && (forall i :: 0 <= i < |files| ==> Canonical(files[i].name))
    }

    /** The index invariant: consistent, closed under parent directories, no name both a file and a
        directory. */
    ghost predicate Valid()
      reads this, files
    {
      Consistent() && TreeOk(lookup.Keys)
    }

    constructor ()
      ensures Valid() && files == [] && lookup == map[]
    {
      files, lookup := [], map[];
    }

    /** Appends to the list and writes the map.  The two stay consistent exactly when the name is new. */
    method Append(f: File)
      requires Consistent() && f !in files && Canonical(f.name)
      modifies this
      ensures Consistent() == (f.EntryName() !in old(lookup))
      ensures files == old(files) + [f] && lookup == old(lookup)[f.EntryName() := f]
      ensures Names() == old(Names()) + [f.EntryName()]
    {
      LinkAppend(files, Names(), lookup, f, f.EntryName());
      ghost var names := Names();
      files := files + [f];
      lookup := lookup[f.EntryName() := f];
      assert Names() == names + [f.EntryName()];
    }

    /** The walk upwards of `createMissingDirs`: the missing parents, innermost first. */
    method FindMissing(path: string) returns (missing: seq<string>, blocked: bool)
      requires Canonical(path)
      ensures blocked == ParentIsFile(lookup.Keys, path)
      ensures !blocked ==> |missing| == |MissingDirs(lookup.Keys, path)|
      ensures !blocked ==> forall i :: 0 <= i < |missing| ==>
                                  missing[i] == MissingDirs(lookup.Keys, path)[|missing| - 1 - i]
    {
      ghost var ds := MissingDirs(lookup.Keys, path);
      DirCanonical(path);
      var dir := Dir(path);
      missing := [];
      while dir != "" && dir + "/" !in lookup
        invariant dir == "" || Canonical(dir)
        invariant |ds| >= |missing|
        invariant forall i :: 0 <= i < |missing| ==> missing[i] == ds[|ds| - 1 - i]
        invariant ds[..|ds| - |missing|]
               == if dir == "" || dir + "/" in lookup then [] else MissingDirs(lookup.Keys, dir) + [dir]
        invariant ParentIsFile(lookup.Keys, path)
             <==> dir != "" && dir + "/" !in lookup && (dir in lookup || ParentIsFile(lookup.Keys, dir))
        decreases |dir|
      {
        if dir in lookup {
          return missing, true;
        }
        WalkStep(ds, missing, MissingDirs(lookup.Keys, dir), dir);
        DirCanonical(dir);
        missing := missing + [dir];
        dir := Dir(dir);
      }
      return missing, false;
    }

    /** One missing parent becomes an implicit directory entry. */
    method AppendDir(dir: string)
      requires Consistent() && Canonical(dir) && dir + "/" !in lookup
      modifies this
      ensures Consistent()
      ensures old(files) <= files && forall f :: f in files ==> f in old(files) || fresh(f)
      ensures Names() == old(Names()) + [dir + "/"]
      ensures lookup.Keys == old(lookup.Keys) + {dir + "/"}
    {
      var dirEntry := new File(dir, true, true, "");
      Append(dirEntry);
    }

    /** The loop that appends the missing parents, outermost first. */
    method AppendDirs(missing: seq<string>, ghost ds: seq<string>)
      requires Consistent()
      requires |missing| == |ds| && forall i :: 0 <= i < |ds| ==> missing[i] == ds[|ds| - 1 - i]
      requires forall i :: 0 <= i < |ds| ==> Canonical(ds[i]) && ds[i] + "/" !in lookup
      requires forall i, j :: 0 <= i < j < |ds| ==> |ds[i]| < |ds[j]|
      modifies this
      ensures Consistent()
      ensures old(files) <= files && forall f :: f in files ==> f in old(files) || fresh(f)
      ensures Names() == old(Names()) + DirEntries(ds)
      ensures lookup.Keys == WithDirs(old(lookup.Keys), ds)
    {
      ghost var K, N := lookup.Keys, Names();
      var i := |missing|;
      NoDirsYet(K, N, ds);
      while i > 0
        invariant 0 <= i <= |missing|
        invariant old(files) <= files && forall f :: f in files ==> f in old(files) || fresh(f)
        invariant Consistent() && HasDirs(K, N, ds, |ds| - i)
      {
        i := i - 1;
        AppendNext(missing[i], K, N, ds, |ds| - i - 1);
      }
    }

    lemma NoDirsYet(K: set<string>, N: seq<string>, ds: seq<string>)
      requires lookup.Keys == K && Names() == N
      ensures HasDirs(K, N, ds, 0)
    {
      assert ds[..0] == [] && N + DirEntries([]) == N;
    }

    /** The first `k` of the directories `ds` have been added to the names `N` and the keys `K`. */
    ghost predicate HasDirs(K: set<string>, N: seq<string>, ds: seq<string>, k: nat)
      reads this, files
      requires k <= |ds|
    {
      Names() == N + DirEntries(ds[..k]) && lookup.Keys == WithDirs(K, ds[..k]) && (k == |ds| ==> ds[..k] == ds)
    }

    method AppendNext(dir: string, ghost K: set<string>, ghost N: seq<string>, ghost ds: seq<string>, ghost k: nat)
      requires k < |ds| && dir == ds[k] && Canonical(dir) && dir + "/" !in K
      requires forall i, j :: 0 <= i < j < |ds| ==> |ds[i]| < |ds[j]|
      requires Consistent() && HasDirs(K, N, ds, k)
      modifies this
      ensures Consistent() && HasDirs(K, N, ds, k + 1)
      ensures old(files) <= files && forall f :: f in files ==> f in old(files) || fresh(f)
    {
      NextDir(K, ds, k);
      AppendDir(dir);
      assert k + 1 == |ds| ==> ds[..k + 1] == ds;
    }

    /** Adds the missing parents of `path`, or nothing when one of them is a file. */
    method CreateMissingDirs(path: string) returns (err: Option<Error>)
      requires Valid() && Canonical(path)
      modifies this
      ensures Valid()
      ensures err == if ParentIsFile(old(lookup.Keys), path) then Some(Duplicate) else None
      ensures err.Some? ==> unchanged(this)
      ensures err.None? ==> old(files) <= files && forall f :: f in files ==> f in old(files) || fresh(f)
      ensures err.None? ==> Names() == old(Names()) + DirEntries(MissingDirs(old(lookup.Keys), path))
      ensures err.None? ==> lookup.Keys == WithDirs(old(lookup.Keys), MissingDirs(old(lookup.Keys), path))
      ensures err.None? ==> ParentsIn(lookup.Keys, path)
    {
      var missing, blocked := FindMissing(path);
      if blocked {
        return Some(Duplicate);
      }
      AddParents(path, missing, MissingDirs(lookup.Keys, path));
      return None;
    }

    method AddParents(path: string, missing: seq<string>, ghost ds: seq<string>)
      requires Valid() && Canonical(path) && ds == MissingDirs(lookup.Keys, path) && !ParentIsFile(lookup.Keys, path)
      requires |missing| == |ds| && forall i :: 0 <= i < |ds| ==> missing[i] == ds[|ds| - 1 - i]
      modifies this
      ensures Valid()
      ensures old(files) <= files && forall f :: f in files ==> f in old(files) || fresh(f)
      ensures Names() == old(Names()) + DirEntries(ds)
      ensures lookup.Keys == WithDirs(old(lookup.Keys), ds) && ParentsIn(lookup.Keys, path)
    {
      ParentsReady(lookup.Keys, path, ds);
      AppendDirs(missing, ds);
    }

    /** Appends an entry whose parents exist.  The tree stays one exactly when no entry of either kind
        has the name. */
    method AppendNew(f: File)
      requires Valid() && f !in files && Canonical(f.name) && ParentsIn(lookup.Keys, f.name)
      modifies this
      ensures files == old(files) + [f] && Names() == old(Names()) + [f.EntryName()]
      ensures Valid() == (f.name !in old(lookup) && f.name + "/" !in old(lookup))
    {
      ghost var keys := lookup.Keys;
      Append(f);
      assert lookup.Keys == keys + {f.EntryName()};
      if f.EntryName() !in keys {
        InsertTreeIff(keys, f.name, f.isDir);
      }
    }

    /** Adds the missing parents of a new entry and then the entry. */
    method Insert(f: File) returns (err: Option<Error>)
      requires Valid() && f !in files && Canonical(f.name)
      requires f.EntryName() !in lookup || f.isDir
      modifies this
      ensures err == if ParentIsFile(old(lookup.Keys), f.name) then Some(Duplicate) else None
      ensures err.Some? ==> unchanged(this)
      ensures err.None? ==>
              Names() == old(Names()) + DirEntries(MissingDirs(old(lookup.Keys), f.name)) + [f.EntryName()]
      ensures err.None? ==> files[|files| - 1] == f && old(files) <= files
      ensures Valid() == (err.Some? || (f.name + "/" !in old(lookup) && (f.isDir ==> f.name !in old(lookup))))
      ensures forall x :: x in files ==> x in old(files) || x == f || fresh(x)
    {
      ParentsAreNotSelf(lookup.Keys, f.name);
      err := CreateMissingDirs(f.name);
      if err.None? {
        AppendNew(f);
      }
    }

    /** The checks of `addEntry` before anything is changed. */
    function NewNameError(name: string, isDir: bool, comment: string): (err: Option<Error>)
      reads this
      ensures AddError(lookup.Keys, name, isDir, comment)
           == if err.Some? then err else if ParentIsFile(lookup.Keys, name) then Some(Duplicate) else None
      ensures err.None? ==> name != "" && name != "." && name !in lookup && (isDir || name + "/" !in lookup)
    {
      if name == "" || name == "." then Some(InvalidName)
      else if |name| + (if isDir then 1 else 0) > MAX_STRING_LENGTH then Some(TooLong)
      else if |comment| > MAX_STRING_LENGTH then Some(CommentTooLong)
      else if name in lookup || (!isDir && name + "/" in lookup) then Some(Duplicate)
      else None
    }

    /** An entry that is not listed may change its name. */
    method SetName(f: File, name: string)
      requires Valid() && f !in files
      modifies f`name
      ensures Valid() && Names() == old(Names()) && f.name == name
    {
      f.name := name;
      assert Names() == old(Names());
    }

    /** `addEntry` after the options were applied.  The index invariant survives exactly when the new
        entry is not a directory that already exists: the code rejects every other duplicate. */
    method AddEntry(f: File) returns (err: Option<Error>)
      requires Valid() && f !in files
      modifies this, f`name
      ensures f.name == Clean(old(f.name))
      ensures err == AddError(old(lookup.Keys), f.name, f.isDir, f.comment)
      ensures err.Some? ==> unchanged(this)
      ensures err.None? ==>
              Names() == old(Names()) + DirEntries(MissingDirs(old(lookup.Keys), f.name)) + [f.EntryName()]
      ensures err.None? ==> files[|files| - 1] == f && old(files) <= files
      ensures Valid() == (err.Some? || !(f.isDir && f.name + "/" in old(lookup)))
      ensures forall x :: x in files ==> x in old(files) || x == f || fresh(x)
    {
      CleanIsCanonical(f.name);
      SetName(f, Clean(f.name));
      err := AddClean(f);
    }

    /** The same for a name that is clean, or empty. */
    method AddClean(f: File) returns (err: Option<Error>)
      requires Valid() && f !in files && (f.name == "" || Canonical(f.name))
      modifies this
      ensures err == AddError(old(lookup.Keys), f.name, f.isDir, f.comment)
      ensures err.Some? ==> unchanged(this)
      ensures err.None? ==>
              Names() == old(Names()) + DirEntries(MissingDirs(old(lookup.Keys), f.name)) + [f.EntryName()]
      ensures err.None? ==> files[|files| - 1] == f && old(files) <= files
      ensures Valid() == (err.Some? || !(f.isDir && f.name + "/" in old(lookup)))
      ensures forall x :: x in files ==> x in old(files) || x == f || fresh(x)
    {
      ghost var after := Names() + DirEntries(MissingDirs(lookup.Keys, f.name)) + [f.EntryName()];
      err := NewNameError(f.name, f.isDir, f.comment);
      if err.None? {
        err := InsertNew(f);
        assert err.None? ==> Names() == after;
      }
    }

    method InsertNew(f: File) returns (err: Option<Error>)
      requires Valid() && f !in files && Canonical(f.name)
      requires f.name !in lookup && (f.isDir || f.name + "/" !in lookup)
      modifies this
      ensures err == if ParentIsFile(old(lookup.Keys), f.name) then Some(Duplicate) else None
      ensures err.Some? ==> unchanged(this)
      ensures err.None? ==>
              Names() == old(Names()) + DirEntries(MissingDirs(old(lookup.Keys), f.name)) + [f.EntryName()]
      ensures err.None? ==> files[|files| - 1] == f && old(files) <= files
      ensures Valid() == (err.Some? || !(f.isDir && f.name + "/" in old(lookup)))
      ensures forall x :: x in files ==> x in old(files) || x == f || fresh(x)
    {
      err := Insert(f);
    }

    /** The compaction loop of `Remove`: the list is rewritten in place while it is scanned. */
    method Compact(cleanName: string) returns (deleted: seq<File>)
      modifies this
      ensures deleted == Split(old(files), old(Names()), cleanName, true)
      ensures files == Split(old(files), old(Names()), cleanName, false)
      ensures lookup == Without(old(lookup), old(Names()), cleanName)
    {
      var dirPrefix := cleanName + "/";
      ghost var before, names := files, Names();
      deleted := [];
      var n := 0;
      var i := 0;
      while i < |files|
        invariant 0 <= n <= i <= |files| == |before|
        invariant files[i..] == before[i..]
        invariant files[..n] == Split(before[..i], names[..i], cleanName, false)
        invariant deleted == Split(before[..i], names[..i], cleanName, true)
        invariant lookup == Without(old(lookup), names[..i], cleanName)
      {
        assert files[i] == before[i] by { assert files[i] == files[i..][0] == before[i..][0]; }
        var fName := files[i].EntryName();
        SplitStep(before, names, cleanName, i);
        WithoutStep(old(lookup), names, cleanName, i);
        InPlace(files, before, n, i);
        if fName == cleanName || fName == dirPrefix || HasPrefix(fName, dirPrefix) {
          deleted := deleted + [files[i]];
          lookup := map m | m in lookup && m != fName :: lookup[m];
        } else {
          files := files[n := files[i]];
          n := n + 1;
        }
        i := i + 1;
      }
      files := files[..n];
      assert before[..i] == before && names[..i] == names;
    }

    /** The empty name and "." empty the archive.  For any other name the entry, the directory of that
        name and all its contents go, everything else stays in order; the invariant survives exactly
        when the name is not that of a non-empty directory written with its trailing slash. */
    method Remove(name: string) returns (deleted: seq<File>, err: Option<Error>)
      requires Valid()
      modifies this
      ensures name == "" || name == "." ==>
              Valid() && err.None? && deleted == old(files) && files == [] && lookup == map[]
      ensures name != "" && name != "." ==>
                && deleted == Split(old(files), old(Names()), NormalizePath(name), true)
                && files == Split(old(files), old(Names()), NormalizePath(name), false)
                && lookup == (map n | n in old(lookup) && !Removed(n, NormalizePath(name)) :: old(lookup)[n])
                && err == (if deleted == [] then Some(NotFound) else None)
                && Names() == SplitNames(old(Names()), NormalizePath(name))
                && Valid() == RemovalSafe(old(lookup.Keys), NormalizePath(name))
      ensures forall x :: x in files ==> x in old(files)
    {
      if name == "" || name == "." {
        deleted, err := files, None;
        files, lookup := [], map[];
      } else {
        ghost var before, names, was := files, Names(), lookup;
        deleted := Compact(NormalizePath(name));
        forall x
          ensures x in files ==> x in before
        {
          SplitMembers(before, names, NormalizePath(name), false, x);
        }
        AfterRemoval(before, names, was, NormalizePath(name));
        err := if deleted == [] then Some(NotFound) else None;
      }
    }

    lemma AfterRemoval(before: seq<File>, names: seq<string>, was: map<string, File>, key: string)
      requires |before| == |names|
      requires LinkedAs(before, names, was) && Distinct(before) && TreeOk(was.Keys)
      requires forall i :: 0 <= i < |before| ==> names[i] == before[i].EntryName() && Canonical(before[i].name)
      requires files == Split(before, names, key, false) && lookup == Without(was, names, key)
      ensures lookup == map n | n in was && !Removed(n, key) :: was[n]
      ensures Names() == SplitNames(names, key) && Valid() == RemovalSafe(was.Keys, key)
    {
      assert lookup == map n | n in was && !Removed(n, key) :: was[n];
      SplitConsistent(before, names, was, key);
      RestConsistent(before, names, was, key);
      RemoveKeepsTreeIff(was.Keys, key);
      assert lookup.Keys == Remaining(was.Keys, key);
    }

    lemma RestConsistent(before: seq<File>, names: seq<string>, was: map<string, File>, key: string)
      requires |before| == |names|
      requires forall i :: 0 <= i < |before| ==> names[i] == before[i].EntryName() && Canonical(before[i].name)
      requires files == Split(before, names, key, false)
      requires Distinct(files) && LinkedAs(files, SplitNames(names, key), lookup)
      ensures Consistent() && Names() == SplitNames(names, key)
    {
      SplitOf(before, names, key);
      assert Names() == SplitNames(names, key);
    }

    function FindKey(name: string): Option<string>
      reads this
    {
      FindName(lookup.Keys, name)
    }

    // -------------------------------------------------------------- Rename and Move

    /** The body of the rename loop. */
    method RenameEntry(i: nat, entry: File, oldPrefix: string, newPrefix: string)
      requires Distinct(files) && i < |files| && entry == files[i] && HasPrefix(entry.EntryName(), oldPrefix)
      requires EndsInSlash(Subst(entry.EntryName(), oldPrefix, newPrefix)) <==> entry.isDir
      modifies this`lookup, entry`name
      ensures Names() == old(Names())[i := Subst(old(Names())[i], oldPrefix, newPrefix)]
      ensures lookup == Rekeyed(old(lookup), old(Names())[i], Names()[i], entry)
      ensures !entry.isDir ==> !EndsInSlash(entry.name)
    {
      var filename := entry.EntryName();
      ghost var names := Names();
      var full := newPrefix + filename[|oldPrefix|..];
      lookup := map m | m in lookup && m != filename :: lookup[m];
      entry.name := if EndsInSlash(full) then full[..|full| - 1] else full;
      lookup := lookup[entry.EntryName() := entry];
      assert entry.EntryName() == full;
      assert Names() == names[i := full];
    }

    /** Whether the entries up to `i` have got their new names, and no file name ends in a slash. */
    ghost predicate Renamed(N: seq<string>, i: nat, from: string, to: string)
      reads this, files
    {
      Names() == Partly(N, i, from, to)
        && forall j :: 0 <= j < |files| && !files[j].isDir ==> !EndsInSlash(files[j].name)
    }

    /** One iteration over the list. */
    method TransformEntry(i: nat, from: string, to: string, ghost N: seq<string>)
      requires Distinct(files) && i < |files| == |N| && Renamed(N, i, from, to)
      requires HasPrefix(N[i], from) ==> (EndsInSlash(Subst(N[i], from, to)) <==> files[i].isDir)
      modifies this`lookup, {files[i]}`name
      ensures Renamed(N, i + 1, from, to)
      ensures lookup == NextMap(files, N, old(lookup), from, to, i)
    {
      PartlyStep(N, i, from, to);
      assert files[i].EntryName() == Names()[i] == N[i];
      if HasPrefix(files[i].EntryName(), from) {
        RenameEntry(i, files[i], from, to);
      }
    }

    lemma KindsKept(f: File, newPath: string)
      requires Consistent() && f in files && Canonical(newPath)
      ensures forall j :: 0 <= j < |files| && HasPrefix(Names()[j], f.EntryName()) ==>
                (EndsInSlash(Subst(Names()[j], f.EntryName(), NewPrefix(f.isDir, newPath))) <==> files[j].isDir)
      ensures forall j :: 0 <= j < |files| && !files[j].isDir ==> !EndsInSlash(files[j].name)
    {
      forall j | 0 <= j < |files| && HasPrefix(Names()[j], f.EntryName())
        ensures EndsInSlash(Subst(Names()[j], f.EntryName(), NewPrefix(f.isDir, newPath))) <==> files[j].isDir
      {
        KindKept(f.name, f.isDir, files[j].name, files[j].isDir, newPath);
      }
    }

    /** The loop of `applyPathTransform`: every entry whose stored name starts with the old prefix gets
        the new one.  List and map agree afterwards exactly if every new name was free at its turn. */
    method ApplyPathTransform(f: File, newPath: string)
      requires Consistent() && f in files && Canonical(newPath) && f.name != newPath
      modifies this`lookup, set x | x in files
      ensures files == old(files)
      ensures Names() == SubstAll(old(Names()), old(f.EntryName()), NewPrefix(f.isDir, newPath))
      ensures forall i :: 0 <= i < |files| && !files[i].isDir ==> !EndsInSlash(files[i].name)
      ensures Linked() == Unused(old(Names()), old(f.EntryName()), NewPrefix(f.isDir, newPath))
    {
      var oldPrefix := f.EntryName();
      var newPrefix := NewPrefix(f.isDir, newPath);
      ghost var N := Names();
      KindsKept(f, newPath);
      PartlyEnds(N, oldPrefix, newPrefix);
      PrefixesDiffer(f.name, newPath, f.isDir);
      LinkedAfterIff(files, N, lookup, oldPrefix, newPrefix);
      TransformAll(oldPrefix, newPrefix, N);
    }

    method TransformAll(from: string, to: string, ghost N: seq<string>)
      requires Distinct(files) && |files| == |N| && Renamed(N, 0, from, to)
      requires forall j :: 0 <= j < |files| && HasPrefix(N[j], from) ==>
                      (EndsInSlash(Subst(N[j], from, to)) <==> files[j].isDir)
      modifies this`lookup, set x | x in files
      ensures files == old(files) && Renamed(N, |N|, from, to)
      ensures lookup == MapAfter(files, N, old(lookup), from, to, 0)
    {
      var i := 0;
      while i < |files|
        invariant 0 <= i <= |files| && files == old(files)
        invariant Renamed(N, i, from, to)
        invariant MapAfter(files, N, lookup, from, to, i) == MapAfter(files, N, old(lookup), from, to, 0)
      {
        TransformEntry(i, from, to, N);
        i := i + 1;
      }
    }

    /** The length check over all names that would change. */
    method AnyTooLong(oldPrefix: string, newPrefix: string) returns (found: bool)
      requires Linked()
      ensures found == MovedNameTooLong(lookup.Keys, oldPrefix, newPrefix)
    {
      ghost var N := Names();
      for i := 0 to |files|
        invariant forall j :: 0 <= j < i && HasPrefix(N[j], oldPrefix) ==>
                         |Subst(N[j], oldPrefix, newPrefix)| <= MAX_STRING_LENGTH
      {
        var n := files[i].EntryName();
        assert n == N[i] && n in lookup;
        if HasPrefix(n, oldPrefix) && |newPrefix + n[|oldPrefix|..]| > MAX_STRING_LENGTH {
          return true;
        }
      }
      return false;
    }

    method CheckPathTransform(f: File, newPath: string) returns (err: Option<Error>)
      requires Linked() && f.name != newPath
      ensures TransformError(lookup.Keys, f.name, f.isDir, newPath)
           == if err.Some? then err else if ParentIsFile(lookup.Keys, newPath) then Some(Duplicate) else None
      ensures unchanged(this) && SameNames()
    {
      if newPath in lookup || newPath + "/" in lookup {
        return Some(Duplicate);
      }
      if f.isDir && HasPrefix(newPath + "/", f.EntryName()) {
        return Some(MoveIntoItself);
      }
      var long := AnyTooLong(f.EntryName(), NewPrefix(f.isDir, newPath));
      return if long then Some(TooLong) else None;
    }

    lemma MovedValidIff(N: seq<string>, K: set<string>, from: string, to: string)
      requires Distinct(files) && Names() == SubstAll(N, from, to) && forall n :: n in K <==> n in N
      requires forall i :: 0 <= i < |files| && !files[i].isDir ==> !EndsInSlash(files[i].name)
      ensures Valid() == (Linked() && TreeOk(Image(K, from, to)))
    {
      if Linked() {
        KeysAreImage(N, K, from, to);
        if TreeOk(Image(K, from, to)) {
          NamesCanonical();
        }
      }
    }

    lemma KeysAreImage(N: seq<string>, K: set<string>, from: string, to: string)
      requires Linked() && Names() == SubstAll(N, from, to) && forall n :: n in K <==> n in N
      ensures lookup.Keys == Image(K, from, to)
    {
      forall n
        ensures n in lookup <==> n in Image(K, from, to)
      {
        if n in lookup {
          var i :| 0 <= i < |files| && Names()[i] == n;
          assert N[i] in K;
        }
        if n in Image(K, from, to) {
          var m :| m in K && n == Subst(m, from, to);
          var i :| 0 <= i < |N| && N[i] == m;
          assert Names()[i] == n;
        }
      }
    }

    lemma NamesCanonical()
      requires Linked() && TreeOk(lookup.Keys)
      requires forall i :: 0 <= i < |files| && !files[i].isDir ==> !EndsInSlash(files[i].name)
      ensures forall i :: 0 <= i < |files| ==> Canonical(files[i].name)
    {
      forall i | 0 <= i < |files|
        ensures Canonical(files[i].name)
      {
        assert Names()[i] in lookup;
        WithoutSlash(files[i].name, files[i].isDir);
      }
    }

    /** Renaming is all or nothing.  On an error neither the list, the map nor any name changes.  On
        success the missing parents are appended and the old prefix is replaced in every name that has
        it; that is the intended renaming exactly for directories and for files whose name is no prefix
        of another name.  The index invariant holds again for directories, and for files exactly if
        nothing is in the way of the names that are changed along. */
    method AtomicPathTransform(f: File, newPath: string) returns (err: Option<Error>)
      requires Valid() && f in files && Canonical(newPath)
      modifies this, set x | x in files
      ensures err == TransformError(old(lookup.Keys), old(f.name), f.isDir, newPath)
      ensures err.Some? || old(f.name) == newPath ==>
                unchanged(this) && Valid() && SameNames()
      ensures err.None? && old(f.name) != newPath ==>
                Transformed(old(lookup.Keys), old(Names()), old(f.name), f.isDir, newPath)
      ensures forall x :: x in files ==> x in old(files) || fresh(x)
    {
      if f.name == newPath {
        return None;
      }
      err := CheckPathTransform(f, newPath);
      if err.None? {
        err := Relocate(f, newPath);
      }
    }

    /** After the checks: the missing parents of the new path, and then the new names. */
    method Relocate(f: File, newPath: string) returns (err: Option<Error>)
      requires Valid() && f in files && Canonical(newPath) && f.name != newPath
      requires TransformError(lookup.Keys, f.name, f.isDir, newPath) ==
               if ParentIsFile(lookup.Keys, newPath) then Some(Duplicate) else None
      modifies this, set x | x in files
      ensures err == TransformError(old(lookup.Keys), old(f.name), f.isDir, newPath)
      ensures err.Some? ==> unchanged(this) && Valid() && SameNames()
      ensures err.None? ==> Transformed(old(lookup.Keys), old(Names()), old(f.name), f.isDir, newPath)
      ensures forall x :: x in files ==> x in old(files) || fresh(x)
    {
      err := CreateMissingDirs(newPath);
      if err.None? {
        Rewrite(f, newPath, old(lookup.Keys), old(Names()));
      }
    }

    /** The rename loop after the checks and the creation of the parents. */
    method Rewrite(f: File, newPath: string, ghost K: set<string>, ghost N: seq<string>)
      requires Valid() && f in files && Canonical(newPath) && f.name != newPath
      requires TreeOk(K) && f.EntryName() in K && forall n :: n in K <==> n in N
      requires TransformError(K, f.name, f.isDir, newPath).None?
      requires Names() == N + DirEntries(MissingDirs(K, newPath))
      requires lookup.Keys == WithDirs(K, MissingDirs(K, newPath)) && ParentsIn(lookup.Keys, newPath)
      modifies this`lookup, set x | x in files
      ensures Transformed(K, N, old(f.name), f.isDir, newPath)
      ensures files == old(files)
    {
      ghost var name := f.name;
      ghost var from, to := NewPrefix(f.isDir, name), NewPrefix(f.isDir, newPath);
      ghost var K1, N1 := lookup.Keys, Names();
      TargetReady(K, name, f.isDir, newPath);
      if f.isDir {
        TargetsUnused(N1, K1, from, to);
      } else {
        FileRenameTreeIff(K1, from, to);
      }
      ApplyPathTransform(f, newPath);
      MovedValidIff(N1, K1, from, to);
      RenamingIntended(K, N, name, f.isDir, newPath);
    }

    ghost function IndexOf(f: File): (i: nat)
      reads this
      requires f in files
      ensures i < |files| && files[i] == f
    {
      var i :| 0 <= i < |files| && files[i] == f; i
    }

    /** The state after a successful renaming, from the names `N` and the keys `K` before it. */
    ghost predicate Transformed(K: set<string>, N: seq<string>, name: string, isDir: bool, path: string)
      reads this, files
    {
      var from, to, ds := NewPrefix(isDir, name), NewPrefix(isDir, path), MissingDirs(K, path);
      && Names() == SubstAll(N + DirEntries(ds), from, to)
      && (Names() == Intended(N, from, to, isDir) + DirEntries(ds) <==> isDir || NoStray(WithDirs(K, ds), from))
      && Valid() == (isDir || MoveFree(N + DirEntries(ds), WithDirs(K, ds), from, to))
    }

    /** `Rename`: a new base name in the same directory. */
    method Rename(oldName: string, newName: string) returns (err: Option<Error>)
      requires Valid()
      modifies this, set x | x in files
      ensures oldName == newName ==> err.None?
      ensures oldName != newName && (newName == "" || '/' in newName || '\\' in newName) ==> err == Some(InvalidName)
      ensures oldName != newName && newName != "" && '/' !in newName && '\\' !in newName
              && old(FindKey(oldName)).None? ==>
                err == Some(NotFound)
      ensures oldName == newName || newName == "" || '/' in newName || '\\' in newName
              || old(FindKey(oldName)).None? ==>
                unchanged(this) && Valid() && SameNames()
      ensures oldName != newName && newName != "" && '/' !in newName && '\\' !in newName
              && old(FindKey(oldName)).Some? ==>
                var f := old(lookup[FindKey(oldName).value]);
                RenamedTo(f, PathJoin(Dir(old(f.name)), newName), err)
      ensures forall x :: x in files ==> x in old(files) || fresh(x)
    {
      if oldName == newName {
        return None;
      }
      if newName == "" || '/' in newName || '\\' in newName {
        return Some(InvalidName);
      }
      var key := FindKey(oldName);
      if key.None? {
        return Some(NotFound);
      }
      var file := lookup[key.value];
      assert file in files && Canonical(file.name) by { FoundCanonical(key.value); }
      DirCanonical(file.name);
      PathJoinCanonical(Dir(file.name), newName);
      err := AtomicPathTransform(file, PathJoin(Dir(file.name), NormalizePath(newName)));
    }

    /** `Move`: the same base name in another directory, whose missing parents are created. */
    method Move(oldName: string, newDir: string) returns (err: Option<Error>)
      requires Valid()
      modifies this, set x | x in files
      ensures old(FindKey(oldName)).None? ==>
                err == Some(NotFound) && unchanged(this) && Valid() && SameNames()
      ensures old(FindKey(oldName)).Some? ==>
                var f := old(lookup[FindKey(oldName).value]);
                RenamedTo(f, PathJoin(NormalizePath(newDir), Base(old(f.name))), err)
      ensures forall x :: x in files ==> x in old(files) || fresh(x)
    {
      var key := FindKey(oldName);
      if key.None? {
        return Some(NotFound);
      }
      var file := lookup[key.value];
      assert file in files && Canonical(file.name) by { FoundCanonical(key.value); }
      DirCanonical(file.name);
      NormalizedDir(newDir);
      PathJoinCanonical(NormalizePath(newDir), Base(file.name));
      err := AtomicPathTransform(file, PathJoin(NormalizePath(newDir), Base(file.name)));
    }

    lemma FoundCanonical(n: string)
      requires Consistent() && n in lookup
      ensures lookup[n] in files && Canonical(lookup[n].name)
    {
      var i :| 0 <= i < |files| && Names()[i] == n;
    }

    /** No entry has changed its name. */
    twostate predicate SameNames()
      reads this, files
    {
      files == old(files) && Names() == old(Names()) && forall x :: x in old(files) ==> x.name == old(x.name)
    }

    /** What `AtomicPathTransform` promises, for the entry `f` found under its old name. */
    twostate predicate RenamedTo(f: File, path: string, new err: Option<Error>)
      reads this, files
    {
      && err == TransformError(old(lookup.Keys), old(f.name), f.isDir, path)
      && (err.Some? || old(f.name) == path ==>
            unchanged(this) && Valid() && SameNames())
      && (err.None? && old(f.name) != path ==> Transformed(old(lookup.Keys), old(Names()), old(f.name), f.isDir, path))
    }

    // -------------------------------------------------------------- Load

    /** `replaceEntry`: the new entry takes the key and the place of the old one. */
    method ReplaceEntry(was: File, now: File)
      modifies this
      ensures lookup == old(lookup)[now.EntryName() := now]
      ensures was in old(files) ==>
                |files| == |old(files)|
                  && exists i :: 0 <= i < |files| && old(files)[i] == was && files == old(files)[i := now]
      ensures was !in old(files) ==> files == old(files) + [now]
    {
      lookup := lookup[now.EntryName() := now];
      for i := 0 to |files|
        invariant was !in files[..i] && files == old(files)
      {
        if files[i] == was {
          files := files[i := now];
          return;
        }
      }
      assert files[..|files|] == files;
      files := files + [now];
    }

    method AddReplacing(file: File)
      requires Valid() && file !in files && Canonical(file.name) && file.EntryName() in lookup
      modifies this
      ensures Valid() && Names() == old(Names()) && lookup == old(lookup)[file.EntryName() := file]
      ensures forall x :: x in files ==> x in old(files) || x == file || fresh(x)
    {
      var existing := lookup[file.EntryName()];
      ghost var names := Names();
      forall i | 0 <= i < |files| && files[i] == existing
        ensures names[i] == file.EntryName()
        ensures LinkedAs(files[i := file], names, lookup[file.EntryName() := file]) && Distinct(files[i := file])
      {
        assert names[IndexOf(existing)] == file.EntryName();
        LinkReplace(files, names, lookup, i, file);
      }
      assert existing in files by { FoundCanonical(file.EntryName()); }
      ReplaceEntry(existing, file);
      assert Names() == names;
      assert lookup.Keys == old(lookup.Keys);
    }

    /** The entry is added under the handler's name, or nothing is added. */
    method AddRenamed(file: File, newName: string) returns (err: Option<Error>)
      requires Valid() && file !in files && (newName == "" || Canonical(newName))
      modifies this, file`name
      ensures err == RenamedError(old(lookup.Keys), newName, file.isDir)
      ensures err.Some? ==> files == old(files) && lookup == old(lookup)
      ensures err.None? ==>
                && file.name == newName
                && Names() == old(Names()) + DirEntries(MissingDirs(old(lookup.Keys), newName)) +
                   [NewPrefix(file.isDir, newName)]
      ensures Valid() == (err.Some? || NewPrefix(!file.isDir, newName) !in old(lookup))
      ensures forall x :: x in files ==> x in old(files) || x == file || fresh(x)
    {
      if newName == "" {
        return Some(InvalidName);
      }
      SetName(file, newName);
      if file.EntryName() in lookup {
        PresentHasParents(lookup.Keys, newName, file.isDir);
      }
      err := AddUnderName(file);
    }

    method AddUnderName(file: File) returns (err: Option<Error>)
      requires Valid() && file !in files && Canonical(file.name)
      requires file.EntryName() in lookup ==>
               MissingDirs(lookup.Keys, file.name) == [] && !ParentIsFile(lookup.Keys, file.name)
      modifies this
      ensures err == RenamedError(old(lookup.Keys), file.name, file.isDir)
      ensures err.Some? ==> files == old(files) && lookup == old(lookup)
      ensures err.None? ==>
              Names() == old(Names()) + DirEntries(MissingDirs(old(lookup.Keys), file.name)) + [file.EntryName()]
      ensures Valid() == (err.Some? || NewPrefix(!file.isDir, file.name) !in old(lookup))
      ensures forall x :: x in files ==> x in old(files) || x == file || fresh(x)
    {
      ParentsAreNotSelf(lookup.Keys, file.name);
      ghost var names, was := Names(), lookup;
      err := CreateMissingDirs(file.name);
      if err.Some? {
        return;
      }
      if file.EntryName() in lookup {
        NothingAdded(files, Names(), lookup, old(files), names, was);
        return Some(Duplicate);
      }
      AppendNew(file);
    }

    /** `addLoadedFile` with the answer of the conflict handler, which is asked only when the name is
        taken.  The loaded name is taken as clean.  The invariant survives an addition exactly when no
        entry of the other kind has the name, which the code does not look for. */
    method AddLoadedFile(file: File, action: ConflictAction, newName: string) returns (added: bool, err: Option<Error>)
      requires Valid() && file !in files && Canonical(file.name)
      requires newName == "" || Canonical(newName)
      modifies this, file`name
      ensures !added ==> Valid() && Names() == old(Names())
      ensures old(file.EntryName()) !in old(lookup) ==>
                && file.name == old(file.name)
                && err == (if ParentIsFile(old(lookup.Keys), file.name) then Some(Duplicate) else None)
                && (added <==> err.None?) && (err.Some? ==> unchanged(this))
      ensures old(file.EntryName()) in old(lookup) && (action.Skip? || action.Fail? || action.OtherAction?) ==>
                !added && unchanged(this) && (err.Some? <==> action.Fail?)
      ensures old(file.EntryName()) in old(lookup) && action.Replace? ==>
                added && err.None? && Valid() && Names() == old(Names())
                  && lookup == old(lookup)[file.EntryName() := file]
      ensures old(file.EntryName()) in old(lookup) && action.Rename? ==>
                && err == RenamedError(old(lookup.Keys), newName, file.isDir)
                && (added <==> err.None?) && (added ==> file.name == newName)
                && (err.Some? ==> files == old(files) && lookup == old(lookup))
      ensures added && (old(file.EntryName()) !in old(lookup) || action.Rename?) ==>
                && Names() == old(Names()) + DirEntries(MissingDirs(old(lookup.Keys), file.name)) + [file.EntryName()]
                && Valid() == (NewPrefix(!file.isDir, file.name) !in old(lookup))
      ensures forall x :: x in files ==> x in old(files) || x == file || fresh(x)
    {
      if file.EntryName() !in lookup {
        err := Insert(file);
        added := err.None?;
        return;
      }
      match action
      case Replace =>
        AddReplacing(file);
        return true, None;
      case Skip => return false, None;
      case Fail => return false, Some(Duplicate);
      case OtherAction => return false, None;
      case Rename =>
        err := AddRenamed(file, newName);
        added := err.None?;
    }
  }
}
