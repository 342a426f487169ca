/** Entry names of an archive and the trees they form.

    An entry name is a slash-separated path; directory entries end in a slash.  All facts about
    sets of names that the archive index relies on are proved here, on values. */
module Paths {

  predicate HasPrefix(s: string, p: string) {
    |p| <= |s| && s[..|p|] == p
  }

  predicate EndsInSlash(s: string) {
    s != "" && s[|s| - 1] == '/'
  }

  predicate SlashPair(n: string, i: nat)
    requires i + 1 < |n|
  {
    n[i] == '/' && n[i + 1] == '/'
  }

  predicate NoSlashPair(n: string) {
    forall i :: 0 <= i < |n| - 1 ==> !SlashPair(n, i)
  }

  /** No empty component: no leading slash and no two adjacent slashes.  A trailing slash is allowed. */
  ghost predicate WellFormed(n: string) {
    && n != ""
    && n[0] != '/'
    && NoSlashPair(n)
  }

  /** The cleaned form of a file or directory name, without a trailing slash. */
  ghost predicate Canonical(p: string) {
    WellFormed(p) && !EndsInSlash(p)
  }

  lemma PrefixOfPrefix(n: string, m: string, p: string)
    ensures HasPrefix(n, m) && HasPrefix(m, p) ==> HasPrefix(n, p)
  {
    if HasPrefix(n, m) && HasPrefix(m, p) {
      assert n[..|p|] == n[..|m|][..|p|];
    }
  }

  lemma CancelPrefix(p: string, a: string, b: string)
    ensures p + a == p + b <==> a == b
  {
    assert (p + a)[|p|..] == a && (p + b)[|p|..] == b;
  }

  // ---------------------------------------------------------------- splitting names

  /** The directory part of a name, empty when there is none (`path.Dir` answers "." then). */
  function Dir(p: string): (d: string)
    ensures d == "" || (|d| < |p| && HasPrefix(p, d + "/"))
    ensures forall i :: |d| < i < |p| ==> p[i] != '/'
    ensures d == "" && p != "" && p[0] != '/' ==> '/' !in p
  {
    DirOf(p, |p|)
  }

  function DirOf(p: string, n: nat): (d: string)
    requires n <= |p|
    requires forall i :: n <= i < |p| ==> p[i] != '/'
    ensures d == "" || (|d| < |p| && HasPrefix(p, d + "/"))
    ensures forall i :: |d| < i < |p| ==> p[i] != '/'
    ensures d == "" && p != "" && p[0] != '/' ==> '/' !in p
  {
    if n == 0 then "" else if p[n - 1] == '/' then p[..n - 1] else DirOf(p, n - 1)
  }

  function Base(p: string): string {
    var d := Dir(p);
    if d == "" then p else p[|d| + 1..]
  }

  function Join(dir: string, name: string): string {
    if dir == "" then name else if EndsInSlash(dir) then dir + name else dir + "/" + name
  }

  lemma DirCanonical(p: string)
    requires Canonical(p)
    ensures Dir(p) == "" || Canonical(Dir(p))
    ensures Canonical(Base(p)) && '/' !in Base(p)
    ensures Join(Dir(p), Base(p)) == p
  {
    var d := Dir(p);
    if d != "" {
      assert p[..|d| + 1] == d + "/" && p[|d|] == '/';
      assert forall i :: 0 <= i < |d| ==> p[i] == d[i];
      assert !SlashPair(p, |d| - 1);
      forall i | 0 <= i < |d| - 1
        ensures !SlashPair(d, i)
      {
        assert !SlashPair(p, i);
      }
      var b := Base(p);
      assert forall i :: 0 <= i < |b| ==> b[i] == p[|d| + 1 + i];
      assert |p| > |d| + 1 && !SlashPair(p, |d|);
    }
  }

  // ---------------------------------------------------------------- trees of names

  predicate SlashAt(n: string, k: int) {
    0 <= k < |n| && n[k] == '/'
  }

  /** Every prefix of an entry name that ends in a slash is itself an entry, and no name is both a
      file and a directory. */
  ghost predicate TreeOk(S: set<string>) {
    && (forall n :: n in S ==> WellFormed(n))
    && (forall n, k :: n in S && SlashAt(n, k) ==> n[..k + 1] in S)
    && (forall n :: n in S ==> n + "/" !in S)
  }

  /** The proper parents of an entry name are all present. */
  ghost predicate ParentsIn(S: set<string>, n: string) {
    forall k :: SlashAt(n, k) && k < |n| - 1 ==> n[..k + 1] in S
  }

  lemma AddKeepsTree(S: set<string>, p: string, isDir: bool)
    requires TreeOk(S) && Canonical(p) && ParentsIn(S, p)
    requires p !in S && p + "/" !in S
    ensures TreeOk(S + {if isDir then p + "/" else p})
  {
    var n := if isDir then p + "/" else p;
    var T := S + {n};
    forall m, k | m in T && SlashAt(m, k)
      ensures m[..k + 1] in T
    {
      if m == n && m !in S {
        if k == |p| { assert n[..k + 1] == n; } else { assert SlashAt(p, k) && n[..k + 1] == p[..k + 1]; }
      }
    }
    assert WellFormed(n) by {
      forall i | 0 <= i < |n| - 1
        ensures !SlashPair(n, i)
      {
        if i < |p| - 1 { assert !SlashPair(p, i); }
      }
    }
    forall m | m in T
      ensures m + "/" !in T
    {
      assert (m + "/")[|m|] == '/' && (m + "/")[..|m|] == m;
      assert isDir ==> n[..|p|] == p;
      if m == n && isDir {
        assert SlashPair(m + "/", |p|);
      }
    }
  }

  /** Adding an entry next to one with the same name of the other kind always breaks the tree, and
      adding it where its parents are missing does too. */
  lemma AddKeepsTreeOnlyIf(S: set<string>, p: string, isDir: bool)
    requires TreeOk(S) && Canonical(p)
    requires TreeOk(S + {if isDir then p + "/" else p})
    ensures ParentsIn(S, p)
    ensures if isDir then p !in S else p + "/" !in S
  {
    var n := if isDir then p + "/" else p;
    forall k | SlashAt(p, k) && k < |p| - 1
      ensures p[..k + 1] in S
    {
      assert SlashAt(n, k) && n[..k + 1] == p[..k + 1];
      assert p[..k + 1] in S + {n};
      assert |p[..k + 1]| < |n|;
    }
    assert n in S + {n} && (p in S ==> p in S + {n}) && (p + "/" in S ==> p + "/" in S + {n});
  }

  // ---------------------------------------------------------------- missing parents

  /** The ancestors of `p` that are not directory entries of `S`, outermost first. */
  function MissingDirs(S: set<string>, p: string): seq<string>
    decreases |p|
  {
    var d := Dir(p);
    if d == "" || d + "/" in S then [] else MissingDirs(S, d) + [d]
  }

  /** One of the missing ancestors exists as a file. */
  predicate ParentIsFile(S: set<string>, p: string)
    decreases |p|
  {
    var d := Dir(p);
    d != "" && d + "/" !in S && (d in S || ParentIsFile(S, d))
  }

  function WithDirs(S: set<string>, ds: seq<string>): set<string> {
    if ds == [] then S else WithDirs(S, ds[..|ds| - 1]) + {ds[|ds| - 1] + "/"}
  }

  lemma {:induction false} WithDirsAre(S: set<string>, ds: seq<string>, n: string)
    ensures n in WithDirs(S, ds) <==> n in S || exists i :: 0 <= i < |ds| && n == ds[i] + "/"
  {
    if ds != [] {
      WithDirsAre(S, ds[..|ds| - 1], n);
      if n == ds[|ds| - 1] + "/" {
        assert n in WithDirs(S, ds);
      }
    }
  }

  /** Parents are those of the directory part, and the directory part itself. */
  lemma ParentsOfDir(S: set<string>, p: string)
    requires WellFormed(p)
    requires Dir(p) == "" || (Dir(p) + "/" in S && ParentsIn(S, Dir(p)))
    ensures ParentsIn(S, p)
  {
    var d := Dir(p);
    forall k | SlashAt(p, k) && k < |p| - 1
      ensures p[..k + 1] in S
    {
      assert p[k] in p && !SlashPair(p, k);
      assert p[..|d| + 1] == d + "/";
      if k < |d| {
        assert p[k] == (d + "/")[k] == d[k];
        assert SlashAt(d, k) && d[..k + 1] == p[..k + 1];
      }
    }
  }

  /** A directory entry of a tree has its parents in the tree. */
  lemma TreeHasParents(S: set<string>, n: string)
    requires TreeOk(S) && n in S
    ensures ParentsIn(S, n)
  {
  }

  /** Adding the missing ancestors of `p` gives a tree that holds all parents of `p`. */
  lemma {:induction false} MissingDirsComplete(S: set<string>, p: string)
    requires TreeOk(S) && Canonical(p) && !ParentIsFile(S, p)
    ensures TreeOk(WithDirs(S, MissingDirs(S, p)))
    ensures ParentsIn(WithDirs(S, MissingDirs(S, p)), p)
    decreases |p|
  {
    var d := Dir(p);
    DirCanonical(p);
    if d == "" {
      ParentsOfDir(S, p);
    } else if d + "/" in S {
      assert ParentsIn(S, d) by {
        forall k | SlashAt(d, k) && k < |d| - 1
          ensures d[..k + 1] in S
        {
          assert SlashAt(d + "/", k) && (d + "/")[..k + 1] == d[..k + 1];
        }
      }
      ParentsOfDir(S, p);
    } else {
      MissingDirsComplete(S, d);
      var ds := MissingDirs(S, d);
      var T := WithDirs(S, ds);
      assert (ds + [d])[..|ds + [d]| - 1] == ds;
      MissingDirsShorter(S, d);
      WithDirsAre(S, ds, d);
      WithDirsAre(S, ds, d + "/");
      AddKeepsTree(T, d, true);
      ParentsOfDir(T + {d + "/"}, p);
    }
  }

  lemma {:induction false} MissingDirsShorter(S: set<string>, p: string)
    requires Canonical(p)
    ensures forall i :: 0 <= i < |MissingDirs(S, p)| ==>
              var d := MissingDirs(S, p)[i];
              |d| < |p| && Canonical(d) && d + "/" !in S && HasPrefix(p, d + "/")
    ensures forall i, j :: 0 <= i < j < |MissingDirs(S, p)| ==> |MissingDirs(S, p)[i]| < |MissingDirs(S, p)[j]|
    decreases |p|
  {
    var d := Dir(p);
    DirCanonical(p);
    if d != "" && d + "/" !in S {
      MissingDirsShorter(S, d);
      var ds := MissingDirs(S, d);
      forall i | 0 <= i < |ds|
        ensures HasPrefix(p, ds[i] + "/")
      {
        assert HasPrefix(d, ds[i] + "/");
        assert p[..|d|] == (d + "/")[..|d|] == d;
        assert p[..|ds[i]| + 1] == p[..|d|][..|ds[i]| + 1];
      }
    }
  }

  // ---------------------------------------------------------------- removing a subtree

  /** What `Remove` deletes for the cleaned name `key`: the entry of that name, the directory of
      that name, and everything below it. */
  predicate Removed(n: string, key: string) {
    n == key || n == key + "/" || HasPrefix(n, key + "/")
  }

  ghost function Remaining(S: set<string>, key: string): set<string> {
    set n | n in S && !Removed(n, key)
  }

  /** The only names whose removal tears the tree: a directory given with its trailing slash, which
      deletes the directory but none of its contents. */
  predicate RemovalSafe(S: set<string>, key: string) {
    EndsInSlash(key) && key in S ==> forall n :: n in S && HasPrefix(n, key) ==> n == key
  }

  lemma NothingBelowDoubledSlash(n: string, key: string)
    requires WellFormed(n) && EndsInSlash(key)
    ensures !HasPrefix(n, key + "/")
  {
    if |key| < |n| {
      assert !SlashPair(n, |key| - 1);
      assert n[..|key| + 1][|key|] == n[|key|] && n[..|key| + 1][|key| - 1] == n[|key| - 1];
    }
  }

  /** Removal gives a tree again exactly when the name is safe in this sense. */
  lemma RemoveKeepsTreeIff(S: set<string>, key: string)
    requires TreeOk(S)
    ensures TreeOk(Remaining(S, key)) <==> RemovalSafe(S, key)
  {
    var R := Remaining(S, key);
    if RemovalSafe(S, key) {
      forall n, k | n in R && SlashAt(n, k)
        ensures n[..k + 1] in R
      {
        PrefixOfPrefix(n, n[..k + 1], key + "/");
        assert n[..k + 1] == key ==> EndsInSlash(key) && HasPrefix(n, key);
      }
    } else {
      var n :| n in S && HasPrefix(n, key) && n != key;
      NothingBelowDoubledSlash(n, key);
      assert n[|key| - 1] == key[|key| - 1] && SlashAt(n, |key| - 1) && n[..|key| - 1 + 1] == key;
      assert n in R && key !in R;
    }
  }

  // ---------------------------------------------------------------- moving a subtree

  /** The name an entry gets when the prefix `from` is replaced by `to`. */
  function Subst(n: string, from: string, to: string): string {
    if HasPrefix(n, from) then to + n[|from|..] else n
  }

  ghost function Image(S: set<string>, from: string, to: string): set<string> {
    set n | n in S :: Subst(n, from, to)
  }

  /** What the checks before a move guarantee about a directory and its new place. */
  ghost predicate MoveOk(S: set<string>, from: string, to: string) {
    && TreeOk(S) && from in S && EndsInSlash(from)
    && WellFormed(to) && EndsInSlash(to)
    && to !in S && to[..|to| - 1] !in S
    && ParentsIn(S, to)
    && !HasPrefix(to, from)
  }

  /** Looking up only the target name rules out every collision below it: in a closed tree nothing
      can exist under a directory that does not. */
  lemma MovedNamesFresh(S: set<string>, to: string, n: string)
    requires TreeOk(S) && EndsInSlash(to) && to !in S && HasPrefix(n, to)
    ensures n !in S
  {
    assert n[|to| - 1] == to[|to| - 1] && SlashAt(n, |to| - 1);
  }

  lemma SubstInjective(S: set<string>, from: string, to: string, a: string, b: string)
    requires TreeOk(S) && EndsInSlash(to) && to !in S
    requires a in S && b in S && Subst(a, from, to) == Subst(b, from, to)
    ensures a == b
  {
    if HasPrefix(a, from) && HasPrefix(b, from) {
      assert a == from + a[|from|..] && b == from + b[|from|..];
      assert a[|from|..] == Subst(a, from, to)[|to|..] == b[|from|..];
    } else if HasPrefix(a, from) {
      MovedNamesFresh(S, to, Subst(a, from, to));
    } else if HasPrefix(b, from) {
      MovedNamesFresh(S, to, Subst(b, from, to));
    }
  }

  lemma MovedClosed(S: set<string>, from: string, to: string, n: string, k: nat)
    requires MoveOk(S, from, to) && n in S
    requires SlashAt(Subst(n, from, to), k)
    ensures Subst(n, from, to)[..k + 1] in Image(S, from, to)
  {
    var m := Subst(n, from, to);
    if !HasPrefix(n, from) {
      var q := n[..k + 1];
      assert SlashAt(n, k) && q in S;
      PrefixOfPrefix(n, q, from);
      assert Subst(q, from, to) == q;
    } else if k < |to| {
      var q := to[..k + 1];
      assert m[..k + 1] == q;
      if k == |to| - 1 {
        assert q == to;
        assert Subst(from, from, to) == to + from[|from|..] == to;
      } else {
        assert to[k] == m[k];
        assert SlashAt(to, k) && q in S;
        PrefixOfPrefix(to, q, from);
        assert Subst(q, from, to) == q;
      }
    } else {
      var j := k - |to| + |from|;
      assert m[k] == n[|from|..][k - |to|] == n[j];
      var q := n[..j + 1];
      assert SlashAt(n, j) && q in S;
      assert q[..|from|] == n[..|from|];
      assert Subst(q, from, to) == to + q[|from|..];
      assert q[|from|..] == n[|from|..][..k + 1 - |to|];
      assert m[..k + 1] == to + n[|from|..][..k + 1 - |to|];
    }
  }

  lemma MovedWellFormed(S: set<string>, from: string, to: string, n: string)
    requires MoveOk(S, from, to) && n in S
    ensures WellFormed(Subst(n, from, to))
  {
    if HasPrefix(n, from) {
      var m := Subst(n, from, to);
      forall i | 0 <= i < |m| - 1
        ensures !SlashPair(m, i)
      {
        if i + 1 < |to| {
          assert !SlashPair(to, i);
        } else {
          var j := i + 1 - |to| + |from|;
          assert m[i + 1] == n[j];
          assert n[..|from|] == from && n[j - 1] == m[i];
          assert !SlashPair(n, j - 1);
        }
      }
    }
  }

  lemma MovedUnambiguous(S: set<string>, from: string, to: string, a: string, b: string)
    requires MoveOk(S, from, to) && a in S && b in S
    ensures Subst(a, from, to) + "/" != Subst(b, from, to)
  {
    var a', b' := Subst(a, from, to), Subst(b, from, to);
    if HasPrefix(a, from) && HasPrefix(b, from) {
      assert a == from + a[|from|..] && b == from + b[|from|..];
      assert a' + "/" == to + (a[|from|..] + "/") && a + "/" == from + (a[|from|..] + "/");
      CancelPrefix(to, a[|from|..] + "/", b[|from|..]);
      CancelPrefix(from, a[|from|..] + "/", b[|from|..]);
    } else if HasPrefix(a, from) {
      assert HasPrefix(a' + "/", to) by { assert (a' + "/")[..|to|] == to; }
      MovedNamesFresh(S, to, a' + "/");
    } else if HasPrefix(b, from) {
      var c := b[|from|..];
      assert (a + "/")[..|a|] == a;
      if c == "" {
        assert b' == to;
      } else {
        assert b'[..|b'| - 1] == to + c[..|c| - 1];
        assert HasPrefix(b'[..|b'| - 1], to);
        MovedNamesFresh(S, to, b'[..|b'| - 1]);
      }
    }
  }

  /** Replacing the prefix of a whole directory subtree gives a tree again. */
  lemma MoveKeepsTree(S: set<string>, from: string, to: string)
    requires MoveOk(S, from, to)
    ensures TreeOk(Image(S, from, to))
  {
    var T := Image(S, from, to);
    forall m | m in T
      ensures WellFormed(m)
    {
      var n :| n in S && m == Subst(n, from, to);
      MovedWellFormed(S, from, to, n);
    }
    forall m, k | m in T && SlashAt(m, k)
      ensures m[..k + 1] in T
    {
      var n :| n in S && m == Subst(n, from, to);
      MovedClosed(S, from, to, n, k);
    }
    forall m | m in T
      ensures m + "/" !in T
    {
      if m + "/" in T {
        var n :| n in S && m == Subst(n, from, to);
        var b :| b in S && m + "/" == Subst(b, from, to);
        MovedUnambiguous(S, from, to, n, b);
      }
    }
  }

  /** No entry other than the file `from` itself starts with the characters of `from`. */
  predicate NoStray(S: set<string>, from: string) {
    forall n :: n in S && HasPrefix(n, from) ==> n == from
  }

  /** Exactly when the textual prefix replacement renames the one file it was asked to rename: no
      other entry may share the prefix. */
  lemma FileRenameExact(S: set<string>, from: string, to: string)
    requires from in S && from != to
    ensures (forall n :: n in S && n != from ==> Subst(n, from, to) == n) <==> NoStray(S, from)
  {
    forall n | n in S && n != from && HasPrefix(n, from)
      ensures Subst(n, from, to) != n
    {
      assert n == from + n[|from|..];
      assert |to| == |from| ==> (to + n[|from|..])[..|to|] == to && (from + n[|from|..])[..|to|] == from;
    }
  }

  /** The parents of the new place are not among the names that are changed along. */
  predicate ParentsStay(from: string, to: string) {
    forall k | 0 <= k < |to| && to[k] == '/' :: !HasPrefix(to[..k + 1], from)
  }

  /** The name of the other kind: a directory's with its slash, a file's without. */
  function OtherKind(n: string): string {
    if EndsInSlash(n) then n[..|n| - 1] else n + "/"
  }

  /** No changed name meets an unchanged one of the other kind. */
  predicate KindsFree(S: set<string>, from: string, to: string) {
    forall n | n in S && HasPrefix(n, from) :: OtherKind(Subst(n, from, to)) !in S
           || HasPrefix(OtherKind(Subst(n, from, to)), from)
  }

  /** A file and its new place, with its parents present. */
  ghost predicate FileMoveOk(S: set<string>, from: string, to: string) {
    && TreeOk(S) && from in S && !EndsInSlash(from)
    && Canonical(to) && to !in S && to + "/" !in S && ParentsIn(S, to)
  }

  /** What stands behind the name of a file in another name does not begin with a slash. */
  lemma NothingBelowFile(S: set<string>, from: string, n: string)
    requires TreeOk(S) && from in S && n in S && HasPrefix(n, from) && n != from
    ensures |n| > |from| && n[|from|] != '/'
  {
    assert n[|from|] == '/' ==> n[..|from| + 1] == from + "/";
    assert SlashAt(n, |from|) ==> n[..|from| + 1] in S;
  }

  lemma RenamedWellFormed(S: set<string>, from: string, to: string, n: string)
    requires FileMoveOk(S, from, to) && n in S
    ensures WellFormed(Subst(n, from, to))
  {
    if HasPrefix(n, from) && n != from {
      NothingBelowFile(S, from, n);
      var m := Subst(n, from, to);
      forall i | 0 <= i < |m| - 1
        ensures !SlashPair(m, i)
      {
        if i + 1 < |to| {
          assert !SlashPair(to, i);
        } else if i >= |to| {
          assert m[i] == n[i - |to| + |from|] && m[i + 1] == n[i + 1 - |to| + |from|];
          assert !SlashPair(n, i - |to| + |from|);
        }
      }
    } else if n == from {
      assert to + n[|from|..] == to;
    }
  }

  lemma RenamedClosed(S: set<string>, from: string, to: string, n: string, k: nat)
    requires FileMoveOk(S, from, to) && ParentsStay(from, to) && n in S && SlashAt(Subst(n, from, to), k)
    ensures Subst(n, from, to)[..k + 1] in Image(S, from, to)
  {
    var m := Subst(n, from, to);
    if !HasPrefix(n, from) {
      var q := n[..k + 1];
      assert SlashAt(n, k) && q in S;
      PrefixOfPrefix(n, q, from);
      assert Subst(q, from, to) == q;
    } else if k < |to| {
      var q := to[..k + 1];
      assert to[k] == m[k] && m[..k + 1] == q;
      assert SlashAt(to, k) && k < |to| - 1 && q in S;
      assert Subst(q, from, to) == q;
    } else {
      var j := k - |to| + |from|;
      assert m[k] == n[|from|..][k - |to|] == n[j];
      var q := n[..j + 1];
      assert SlashAt(n, j) && q in S && q[..|from|] == n[..|from|];
      assert q[|from|..] == n[|from|..][..k + 1 - |to|];
      assert m[..k + 1] == to + n[|from|..][..k + 1 - |to|] == Subst(q, from, to);
    }
  }

  lemma RenamedUnambiguous(S: set<string>, from: string, to: string, a: string, b: string)
    requires FileMoveOk(S, from, to) && KindsFree(S, from, to) && a in S && b in S
    ensures Subst(a, from, to) + "/" != Subst(b, from, to)
  {
    var a', b' := Subst(a, from, to), Subst(b, from, to);
    if HasPrefix(a, from) && HasPrefix(b, from) {
      assert a == from + a[|from|..] && b == from + b[|from|..];
      assert a' + "/" == to + (a[|from|..] + "/") && a + "/" == from + (a[|from|..] + "/");
      CancelPrefix(to, a[|from|..] + "/", b[|from|..]);
      CancelPrefix(from, a[|from|..] + "/", b[|from|..]);
    } else if HasPrefix(a, from) {
      if EndsInSlash(a') {
        assert SlashPair(a' + "/", |a'| - 1);
        assert !(a' + "/" == b && WellFormed(b)) by { assert WellFormed(b) ==> NoSlashPair(b); }
      } else {
        assert OtherKind(a') == a' + "/";
      }
    } else if HasPrefix(b, from) {
      assert EndsInSlash(a + "/") && (a + "/")[..|a + "/"| - 1] == a;
      assert b' == a + "/" ==> OtherKind(b') == a;
    }
  }

  lemma RenamedTree(S: set<string>, from: string, to: string)
    requires FileMoveOk(S, from, to) && ParentsStay(from, to) && KindsFree(S, from, to)
    ensures TreeOk(Image(S, from, to))
  {
    var T := Image(S, from, to);
    forall m | m in T
      ensures WellFormed(m)
    {
      var n :| n in S && m == Subst(n, from, to);
      RenamedWellFormed(S, from, to, n);
    }
    forall m, k | m in T && SlashAt(m, k)
      ensures m[..k + 1] in T
    {
      var n :| n in S && m == Subst(n, from, to);
      RenamedClosed(S, from, to, n, k);
    }
    forall m | m in T
      ensures m + "/" !in T
    {
      if m + "/" in T {
        var n :| n in S && m == Subst(n, from, to);
        var b :| b in S && m + "/" == Subst(b, from, to);
        RenamedUnambiguous(S, from, to, n, b);
      }
    }
  }

  /** A parent that is renamed along is missing afterwards. */
  lemma ParentLost(S: set<string>, from: string, to: string, k: nat)
    requires FileMoveOk(S, from, to) && SlashAt(to, k) && HasPrefix(to[..k + 1], from)
    ensures to in Image(S, from, to) && to[..k + 1] !in Image(S, from, to)
  {
    assert Subst(from, from, to) == to + from[|from|..] == to;
    forall n | n in S
      ensures Subst(n, from, to) != to[..k + 1]
    {
      if HasPrefix(n, from) {
        assert |Subst(n, from, to)| >= |to| > k + 1;
      }
    }
  }

  lemma KindsMeet(S: set<string>, from: string, to: string, n: string)
    requires FileMoveOk(S, from, to) && n in S && HasPrefix(n, from)
    requires var o := OtherKind(Subst(n, from, to)); o in S && !HasPrefix(o, from)
    ensures !TreeOk(Image(S, from, to))
  {
    var m := Subst(n, from, to);
    var o := OtherKind(m);
    assert m in Image(S, from, to);
    assert Subst(o, from, to) == o && o in Image(S, from, to);
    assert EndsInSlash(m) ==> m == o + "/";
  }

  /** Replacing the prefix of a file, and of all names that begin with the same characters, gives a tree
      exactly if the parents of the new place are not among them, and no changed name meets an unchanged
      one of the other kind. */
  lemma FileRenameTreeIff(S: set<string>, from: string, to: string)
    requires FileMoveOk(S, from, to)
    ensures TreeOk(Image(S, from, to)) <==> ParentsStay(from, to) && KindsFree(S, from, to)
  {
    if ParentsStay(from, to) && KindsFree(S, from, to) {
      RenamedTree(S, from, to);
    } else if !ParentsStay(from, to) {
      var k :| 0 <= k < |to| && to[k] == '/' && HasPrefix(to[..k + 1], from);
      ParentLost(S, from, to, k);
      assert SlashAt(to, k);
    } else {
      var n :| n in S && HasPrefix(n, from) && OtherKind(Subst(n, from, to)) in S
        && !HasPrefix(OtherKind(Subst(n, from, to)), from);
      KindsMeet(S, from, to, n);
    }
  }

  lemma JoinCanonical(dir: string, name: string)
    requires dir == "" || Canonical(dir) || (EndsInSlash(dir) && Canonical(dir[..|dir| - 1]))
    requires Canonical(name) && '/' !in name
    ensures Canonical(Join(dir, name))
  {
    var p := Join(dir, name);
    var cut := |p| - |name|;
    forall i | 0 <= i < |p| - 1
      ensures !SlashPair(p, i)
    {
      if i >= cut {
        assert p[i] == name[i - cut];
      } else if Canonical(dir) && i < |dir| - 1 {
        assert !SlashPair(dir, i);
      } else if EndsInSlash(dir) && i < |dir| - 2 {
        assert !SlashPair(dir[..|dir| - 1], i);
      } else {
        assert p[cut] == name[0];
      }
    }
  }
}
