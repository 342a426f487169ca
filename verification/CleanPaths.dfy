/** `path.Clean` on the name of an entry. */
module CleanPaths {
  import opened Paths

  /** Backslashes become slashes. */
  function Slashes(s: string): (t: string)
    ensures |t| == |s| && '\\' !in t
  {
    seq(|s|, i requires 0 <= i < |s| => if s[i] == '\\' then '/' else s[i])
  }

  /** The components between the slashes, empty ones included. */
  function Parts(t: string): (r: seq<string>)
    ensures |r| > 0
  {
    if t == "" then [""]
    else
      var rest := Parts(t[1..]);
      if t[0] == '/' then [""] + rest else [[t[0]] + rest[0]] + rest[1..]
  }

  /** Empty components and "." go; ".." takes the component before it along, and stays if there is
      none, unless the path is rooted. */
  function Resolve(parts: seq<string>, rooted: bool): seq<string> {
    if parts == [] then [] else WithPart(Resolve(parts[..|parts| - 1], rooted), parts[|parts| - 1], rooted)
  }

  function WithPart(before: seq<string>, p: string, rooted: bool): seq<string> {
    if p == "" || p == "." then before
    else if p != ".." then before + [p]
    else if before != [] && before[|before| - 1] != ".." then before[..|before| - 1]
    else if rooted then before
    else before + [p]
  }

  lemma ResolveNext(a: seq<string>, p: string, rooted: bool)
    ensures Resolve(a + [p], rooted) == WithPart(Resolve(a, rooted), p, rooted)
  {
    assert (a + [p])[..|a|] == a;
  }

  function JoinAll(parts: seq<string>): string {
    if parts == [] then "" else Join(JoinAll(parts[..|parts| - 1]), parts[|parts| - 1])
  }

  predicate Rooted(t: string) {
    t != "" && t[0] == '/'
  }

  /** `path.Clean`. */
  function PathClean(t: string): string {
    var parts := Resolve(Parts(t), Rooted(t));
    if Rooted(t) then "/" + JoinAll(parts) else if parts == [] then "." else JoinAll(parts)
  }

  /** `path.Join`, of a name that is not empty. */
  function PathJoin(dir: string, name: string): string {
    PathClean(if dir == "" then name else dir + "/" + name)
  }

  /** The name of an entry: `path.Clean` after the backslashes are replaced, without a leading slash. */
  function Clean(s: string): string {
    var t := PathClean(Slashes(s));
    if Rooted(t) then t[1..] else t
  }

  /** No slash, and no backslash if there was none. */
  predicate Plain(p: string, strict: bool) {
    '/' !in p && (strict ==> '\\' !in p)
  }

  lemma {:induction false} PartsPlain(t: string, strict: bool)
    requires strict ==> '\\' !in t
    ensures forall i :: 0 <= i < |Parts(t)| ==> Plain(Parts(t)[i], strict)
  {
    if t != "" {
      PartsPlain(t[1..], strict);
      var rest := Parts(t[1..]);
      assert Plain(rest[0], strict) && Parts(t)[1..] == if t[0] == '/' then rest else rest[1..];
      assert t[0] in t;
    }
  }

  predicate Names(parts: seq<string>, strict: bool) {
    forall i :: 0 <= i < |parts| ==> parts[i] != "" && Plain(parts[i], strict)
  }

  /** Nothing is left to resolve: ".." stands at the front only. */
  predicate Resolved(parts: seq<string>, strict: bool) {
    && Names(parts, strict) && (forall i :: 0 <= i < |parts| ==> parts[i] != ".")
    && (forall i, j :: 0 <= i < j < |parts| && parts[j] == ".." ==> parts[i] == "..")
  }

  lemma {:induction false} ResolveResolves(parts: seq<string>, rooted: bool, strict: bool)
    requires forall i :: 0 <= i < |parts| ==> Plain(parts[i], strict)
    ensures Resolved(Resolve(parts, rooted), strict) && (rooted ==> ".." !in Resolve(parts, rooted))
  {
    if parts != [] {
      ResolveResolves(parts[..|parts| - 1], rooted, strict);
    }
  }

  lemma {:induction false} ResolveFixed(parts: seq<string>)
    requires Resolved(parts, false)
    ensures Resolve(parts, false) == parts
  {
    if parts != [] {
      var init, p := parts[..|parts| - 1], parts[|parts| - 1];
      assert parts == init + [p];
      ResolveFixed(init);
    }
  }

  lemma {:induction false} JoinedCanonical(parts: seq<string>, strict: bool)
    requires parts != [] && Names(parts, strict)
    ensures Canonical(JoinAll(parts)) && (strict ==> '\\' !in JoinAll(parts))
  {
    var init, p := parts[..|parts| - 1], parts[|parts| - 1];
    assert Canonical(p);
    if init != [] {
      JoinedCanonical(init, strict);
    }
    JoinCanonical(JoinAll(init), p);
  }

  lemma {:induction false} PartsAppend(a: string, b: string)
    ensures Parts(a + "/" + b) == Parts(a) + Parts(b)
  {
    if a == "" {
      assert ("/" + b)[1..] == b && a + "/" + b == "/" + b;
    } else {
      assert (a + "/" + b)[1..] == a[1..] + "/" + b;
      PartsAppend(a[1..], b);
    }
  }

  lemma {:induction false} PartsOfOne(p: string)
    requires '/' !in p
    ensures Parts(p) == [p]
  {
    if p != "" {
      PartsOfOne(p[1..]);
      assert [p[0]] + p[1..] == p;
    }
  }

  /** Splitting what was joined. */
  lemma {:induction false} PartsOfJoined(parts: seq<string>)
    requires parts != [] && Names(parts, false)
    ensures Parts(JoinAll(parts)) == parts
  {
    var init, p := parts[..|parts| - 1], parts[|parts| - 1];
    assert parts == init + [p];
    PartsOfOne(p);
    if init != [] {
      JoinedCanonical(init, false);
      PartsOfJoined(init);
      PartsAppend(JoinAll(init), p);
    }
  }

  /** What `path.Clean` leaves of a path that is not rooted. */
  lemma PathCleanIs(t: string, strict: bool)
    requires strict ==> '\\' !in t
    ensures var parts := Resolve(Parts(t), Rooted(t));
            && Resolved(parts, strict) && (Rooted(t) ==> ".." !in parts)
            && (parts != [] ==>
                Canonical(JoinAll(parts)) && (strict ==> '\\' !in JoinAll(parts)) && Parts(JoinAll(parts)) == parts)
  {
    var parts := Resolve(Parts(t), Rooted(t));
    PartsPlain(t, strict);
    ResolveResolves(Parts(t), Rooted(t), strict);
    if parts != [] {
      JoinedCanonical(parts, strict);
      PartsOfJoined(parts);
    }
  }

  lemma PathJoinCanonical(dir: string, name: string)
    requires name != "" && name[0] != '/' && !Rooted(dir)
    ensures Canonical(PathJoin(dir, name))
  {
    PathCleanIs(if dir == "" then name else dir + "/" + name, false);
  }

  /** A cleaned name is empty (that of the root), "." (that of an empty path), or has no backslash and no
      leading, trailing or doubled slash, and all its components are resolved. */
  lemma CleanIsCanonical(s: string)
    ensures '\\' !in Clean(s) && (Clean(s) == "" || Canonical(Clean(s)))
    ensures Clean(s) != "" && Clean(s) != "." ==>
            Resolved(Parts(Clean(s)), true) && JoinAll(Parts(Clean(s))) == Clean(s)
    ensures Clean(s) != "" && Rooted(Slashes(s)) ==> ".." !in Parts(Clean(s))
  {
    CleanIs(s);
    PathCleanIs(Slashes(s), true);
  }

  lemma CleanIs(s: string)
    ensures var (t, parts) := (Slashes(s), Resolve(Parts(Slashes(s)), Rooted(Slashes(s))));
            Clean(s) == if parts == [] && !Rooted(t) then "." else JoinAll(parts)
  {
    var parts := Resolve(Parts(Slashes(s)), Rooted(Slashes(s)));
    PathCleanIs(Slashes(s), true);
    assert ("/" + JoinAll(parts))[1..] == JoinAll(parts);
  }

  /** Cleaning twice is cleaning once, except for the names of the root: these become empty, and the
      empty name becomes ".". */
  lemma CleanIdempotentIff(s: string)
    ensures Clean(Clean(s)) == Clean(s) <==> Clean(s) != ""
  {
    var c := Clean(s);
    CleanIsCanonical(s);
    CleanIs(c);
    assert Slashes(c) == c;
    if c == "" {
      EmptyResolves("");
    } else if c == "." {
      PartsOfOne(".");
      EmptyResolves(".");
    } else {
      ResolveFixed(Parts(c));
    }
  }

  lemma EmptyResolves(p: string)
    requires p == "" || p == "."
    ensures Resolve([p], false) == []
  {
    assert [p][..0] == [];
  }

  // ---------------------------------------------------------------- what cleaning takes away

  lemma {:induction false} ResolveOn(a: seq<string>, a': seq<string>, b: seq<string>, rooted: bool)
    requires Resolve(a, rooted) == Resolve(a', rooted)
    ensures Resolve(a + b, rooted) == Resolve(a' + b, rooted)
  {
    if b == [] {
      assert a + b == a && a' + b == a';
    } else {
      var init, p := b[..|b| - 1], b[|b| - 1];
      ResolveOn(a, a', init, rooted);
      ResolveNext(a + init, p, rooted);
      ResolveNext(a' + init, p, rooted);
      LastBehind(a, b);
      LastBehind(a', b);
    }
  }

  lemma LastBehind(a: seq<string>, b: seq<string>)
    requires b != []
    ensures a + b == a + b[..|b| - 1] + [b[|b| - 1]]
  {
  }

  /** An empty component, a dot, and a name with two dots behind it leave no trace. */
  lemma NoTrace(a: seq<string>, p: string, rooted: bool)
    ensures Resolve(a + [""], rooted) == Resolve(a + ["."], rooted) == Resolve(a, rooted)
    ensures p != "" && p != "." && p != ".." ==> Resolve(a + [p, ".."], rooted) == Resolve(a, rooted)
    ensures Resolve([".."], true) == []
  {
    assert (a + [""])[..|a|] == a && (a + ["."])[..|a|] == a;
    assert (a + [p, ".."])[..|a| + 1] == a + [p] && (a + [p])[..|a|] == a;
    assert [".."][..0] == [];
  }

  /** The rules of `path.Clean`, wherever they apply in a path; what they leave is `CleanFixed`. */
  lemma CleanRules(a: string, p: string, b: string)
    requires '/' !in p && p != "" && p != "." && p != ".."
    ensures PathClean(a + "/" + "" + "/" + b) == PathClean(a + "/" + b)
    ensures PathClean(a + "/" + "." + "/" + b) == PathClean(a + "/" + b)
    ensures PathClean(a + "/" + (p + "/" + "..") + "/" + b) == PathClean(a + "/" + b)
    ensures PathClean("" + "/" + ".." + "/" + b) == PathClean("" + "/" + b)
  {
    PartsOfOne("");
    PartsOfOne(".");
    PartsOfOne("..");
    NameAndUp(p);
    CleanInside(a, "", b);
    CleanInside(a, ".", b);
    CleanInside(a, p + "/" + "..", b);
    CleanInside("", "..", b);
    NoTrace(Parts(a), p, Rooted(a + "/"));
    NoTrace([""], p, true);
    assert [""] + [".."] == ["", ".."] && ["", ".."][..1] == [""] && [""][..0] == [];
  }

  /** Something in the middle of a path goes if its components leave no trace. */
  lemma CleanInside(a: string, x: string, b: string)
    ensures Resolve(Parts(a) + Parts(x), Rooted(a + "/")) == Resolve(Parts(a), Rooted(a + "/")) ==>
              PathClean(a + "/" + x + "/" + b) == PathClean(a + "/" + b)
  {
    PartsAppend(a, x);
    PartsAppend(a + "/" + x, b);
    PartsAppend(a, b);
    if Resolve(Parts(a) + Parts(x), Rooted(a + "/")) == Resolve(Parts(a), Rooted(a + "/")) {
      ResolveOn(Parts(a) + Parts(x), Parts(a), Parts(b), Rooted(a + "/"));
    }
  }

  /** The same at the front of a path that is not rooted. */
  lemma CleanFront(dot: string, p: string, b: string)
    requires dot == "." && '/' !in p && p != "" && p != "." && p != ".." && !Rooted(b)
    ensures PathClean(dot + "/" + b) == PathClean(b)
    ensures PathClean((p + "/" + "..") + "/" + b) == PathClean(b)
  {
    PartsOfOne(dot);
    NoTrace([], p, false);
    assert [] + [dot] == [dot];
    FrontGone(dot, b);
    NameUpGone(p, b);
  }

  lemma NameUpGone(p: string, b: string)
    requires '/' !in p && p != "" && p != "." && p != ".." && !Rooted(b)
    ensures PathClean((p + "/" + "..") + "/" + b) == PathClean(b)
  {
    NameAndUp(p);
    NoTrace([], p, false);
    assert [] + [p, ".."] == [p, ".."];
    FrontGone(p + "/" + "..", b);
  }

  lemma NameAndUp(p: string)
    requires '/' !in p
    ensures Parts(p + "/" + "..") == [p, ".."]
  {
    PartsOfOne("..");
    PartsOfOne(p);
    PartsAppend(p, "..");
  }

  lemma FrontGone(x: string, b: string)
    requires x != "" && !Rooted(x) && !Rooted(b) && Resolve(Parts(x), false) == []
    ensures PathClean(x + "/" + b) == PathClean(b)
  {
    PartsAppend(x, b);
    ResolveOn(Parts(x), [], Parts(b), false);
    assert [] + Parts(b) == Parts(b);
  }

  /** Nothing else is changed: resolved components stay. */
  lemma CleanFixed(path: string, parts: seq<string>)
    requires parts != [] && Resolved(parts, true) && path == JoinAll(parts)
    ensures Clean(path) == path && PathClean(path) == path
  {
    JoinedCanonical(parts, true);
    PartsOfJoined(parts);
    ResolveFixed(parts);
    NoBackslash(path);
  }

  lemma NoBackslash(s: string)
    requires '\\' !in s
    ensures Slashes(s) == s
  {
  }

  /** A slash in front stays in a path, and is taken off a name. */
  lemma CleanRooted(path: string, parts: seq<string>)
    requires parts != [] && Resolved(parts, true) && ".." !in parts && path == JoinAll(parts)
    ensures Clean("/" + path) == path && PathClean("/" + path) == "/" + path
  {
    JoinedCanonical(parts, true);
    PartsOfJoined(parts);
    NoBackslash("/" + path);
    PartsAppend("", path);
    assert "" + "/" + path == "/" + path && ("/" + path)[1..] == path;
    RootedFixed(parts);
  }

  lemma RootedFixed(parts: seq<string>)
    requires Resolved(parts, true) && ".." !in parts
    ensures Resolve([""] + parts, true) == parts
  {
    NoTrace([], "x", true);
    assert [] + [""] == [""] && [] + parts == parts;
    ResolveOn([""], [], parts, true);
    RootedSame(parts);
  }

  lemma {:induction false} RootedSame(parts: seq<string>)
    requires Resolved(parts, true) && ".." !in parts
    ensures Resolve(parts, true) == parts
  {
    if parts != [] {
      var init, p := parts[..|parts| - 1], parts[|parts| - 1];
      assert parts == init + [p] && p in parts;
      RootedSame(init);
    }
  }

  /** Backslashes count as slashes. */
  lemma BackslashCleaned(a: string, b: string)
    ensures Clean(a + "\\" + b) == Clean(a + "/" + b)
  {
    var (s, t) := (a + "\\" + b, a + "/" + b);
    assert forall i :: 0 <= i < |s| ==> Slashes(s)[i] == Slashes(t)[i];
    assert Slashes(s) == Slashes(t);
  }
}
