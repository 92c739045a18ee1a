/** The path check of `src/storage_local.c` and the lexical resolution it protects. */
module StoragePath {
  import opened CText

  /** The slash-separated components; the empty path has one empty component. */
  function Components(path: string): (r: seq<string>)
    ensures r != []
    decreases |path|
  {
    var q := SlashFrom(path, 0);
    if q == |path| then [path] else [path[..q]] + Components(path[q + 1..])
  }

  function SlashFrom(s: string, i: nat): (q: nat)
    requires i <= |s|
    ensures i <= q <= |s| && (q < |s| ==> s[q] == '/')
    ensures forall k :: i <= k < q ==> s[k] != '/'
    decreases |s| - i
  {
    if i == |s| || s[i] == '/' then i else SlashFrom(s, i + 1)
  }

  /** A `..` component starts at i. */
  predicate ParentAt(path: string, i: int)
  {
    && 0 <= i && i + 2 <= |path| && path[i] == '.' && path[i + 1] == '.'
    && (i == 0 || path[i - 1] == '/') && (i + 2 == |path| || path[i + 2] == '/')
  }

  lemma {:induction false} ParentIsComponent(path: string)
    ensures ".." in Components(path) <==> exists i :: ParentAt(path, i)
    decreases |path|
  {
    var q := SlashFrom(path, 0);
    var head := path[..q];
    HeadParent(path, q);
    if q == |path| {
      assert head == path;
      assert Components(path) == [head];
    } else {
      var tail := path[q + 1..];
      ParentIsComponent(tail);
      TailParents(path, q, tail);
      assert Components(path) == [head] + Components(tail);
      hide ParentAt, SlashFrom, Components;
    }
  }

  lemma TailParents(path: string, q: nat, tail: string)
    requires q < |path| && path[q] == '/' && tail == path[q + 1..]
    ensures (exists i :: ParentAt(tail, i)) <==> exists i :: i > q && ParentAt(path, i)
  {
    forall i: int | 0 <= i ensures ParentAt(tail, i) <==> ParentAt(path, i + q + 1) {
      assert forall k :: 0 <= k < |tail| ==> tail[k] == path[k + q + 1];
    }
    if i :| ParentAt(path, i) && i > q {
      assert ParentAt(tail, i - q - 1);
    }
    if i :| ParentAt(tail, i) {
      assert i + q + 1 > q && ParentAt(path, i + q + 1);
    }
  }

  lemma HeadParent(path: string, q: nat)
    requires q == SlashFrom(path, 0)
    ensures path[..q] == ".." <==> ParentAt(path, 0)
    ensures forall i :: ParentAt(path, i) ==> i == 0 || i > q
  {
    assert path[..q] == ".." <==> q == 2 && path[0] == '.' && path[1] == '.';
  }

  /** The non-empty relative paths without a `..` component. */
  predicate Accepted(path: string)
  {
    path != "" && path[0] != '/' && ".." !in Components(path)
  }

  /** `storage_local_is_safe_path`. */
  method IsSafePath(path: CString) returns (safe: bool)
    ensures safe <==> path != "" && path[0] != '/' && ".." !in Components(path)
  {
    ParentIsComponent(path);
    hide Components;
    if path == "" || path[0] == '/' {
      return false;
    }
    for p := 0 to |path|
      invariant forall i :: 0 <= i < p ==> !ParentAt(path, i)
    {
      if At(path, p) == '.' && At(path, p + 1) == '.' && (p == 0 || path[p - 1] == '/') &&
         (At(path, p + 2) == '\0' || At(path, p + 2) == '/') {
        assert ParentAt(path, p);
        return false;
      }
    }
    safe := true;
  }

  // ----- Resolution -----

  /** Walking the components from a place in the tree, given as the directories above it. */
  function Resolve(place: seq<string>, comps: seq<string>): seq<string>
    decreases |comps|
  {
    if comps == [] then place
    else Resolve(Move(place, comps[0]), comps[1..])
  }

  function Move(place: seq<string>, c: string): seq<string>
  {
    if c == "" || c == "." then place
    else if c == ".." then (if place == [] then [] else place[..|place| - 1])
    else place + [c]
  }

  lemma {:induction false} ResolveAppend(place: seq<string>, a: seq<string>, b: seq<string>)
    ensures Resolve(place, a + b) == Resolve(Resolve(place, a), b)
    decreases |a|
  {
    hide Move;
    if a == [] {
      assert [] + b == b;
    } else {
      assert (a + b)[1..] == a[1..] + b;
      ResolveAppend(Move(place, a[0]), a[1..], b);
    }
  }

  lemma {:induction false} ComponentsJoin(base: string, path: string)
    ensures Components(base + "/" + path) == Components(base) + Components(path)
    decreases |base|
  {
    var whole := base + "/" + path;
    var q := SlashFrom(base, 0);
    SlashIs(whole, q);
    if q == |base| {
      assert whole[..q] == base && whole[q + 1..] == path;
    } else {
      assert whole[..q] == base[..q] && whole[q + 1..] == base[q + 1..] + "/" + path;
      ComponentsJoin(base[q + 1..], path);
      hide SlashFrom;
      Joined([base[..q]], Components(base[q + 1..]), Components(path));
    }
  }

  lemma Joined(a: seq<string>, b: seq<string>, c: seq<string>)
    ensures a + (b + c) == a + b + c
  {
  }

  lemma SlashIs(s: string, q: nat)
    requires q < |s| && s[q] == '/' && forall k :: 0 <= k < q ==> s[k] != '/'
    ensures SlashFrom(s, 0) == q
  {
    var r := SlashFrom(s, 0);
    hide SlashFrom;
  }

  // ----- The name that is opened -----

  const FULL_PATH_MAX := 512
  const BASE_MAX := 256

  /** `snprintf(full_path, 512, "%s/%s", base, path)`. */
  function OpenedName(base: CString, path: CString): CString
  {
    Fit(base + "/" + path, FULL_PATH_MAX)
  }

  /** What is left of the path in it; the base has at most 255 bytes and stays whole. */
  function KeptPath(base: CString, path: CString): string
    requires |base| < BASE_MAX
  {
    OpenedName(base, path)[|base| + 1..]
  }

  /** Wherever the walk over the opened name stops behind the base, it stands at or below the
      place the base leads to. */
  ghost predicate StaysBelowBase(start: seq<string>, base: CString, path: CString)
  {
    forall n :: |Components(base)| <= n <= |Components(OpenedName(base, path))| ==>
      Resolve(start, Components(base)) <= Resolve(start, Components(OpenedName(base, path))[..n])
  }

  lemma {:induction false} OpenedNameSplits(base: CString, path: CString)
    requires |base| < BASE_MAX
    ensures KeptPath(base, path) <= path
    ensures |base| + 1 + |path| < FULL_PATH_MAX ==> KeptPath(base, path) == path
    ensures Components(OpenedName(base, path)) == Components(base) + Components(KeptPath(base, path))
  {
    ComponentsJoin(base, KeptPath(base, path));
    hide Components;
    var full := base + "/" + path;
    var n := if |full| < FULL_PATH_MAX then |full| else FULL_PATH_MAX - 1;
    assert full[..n][|base| + 1..] == path[..n - |base| - 1];
    assert full[..n] == base + "/" + path[..n - |base| - 1];
  }

  /** Cutting a path keeps its components but for the end of the last one. */
  lemma {:induction false} CutKeepsComponents(path: string, kept: string)
    requires kept <= path
    ensures var k := Components(kept);
            forall c :: c in k[..|k| - 1] ==> c in Components(path)
    decreases |path|
  {
    var q := SlashFrom(kept, 0);
    if q == |kept| {
      assert Components(kept) == [kept];
    } else {
      SlashIs(path, q);
      CutKeepsComponents(path[q + 1..], kept[q + 1..]);
      var rest := Components(kept[q + 1..]);
      assert ([kept[..q]] + rest)[..|rest|] == [kept[..q]] + rest[..|rest| - 1];
      assert kept[..q] == path[..q];
    }
  }

  predicate Directory(c: string)
  {
    c != "" && c != "."
  }

  /** A walk without `..` stays at or below its start, and leaves it exactly when it meets a
      directory name. */
  lemma {:induction false} WalkDescends(place: seq<string>, comps: seq<string>)
    requires ".." !in comps
    ensures place <= Resolve(place, comps)
    ensures Resolve(place, comps) != place <==> exists c :: c in comps && Directory(c)
    decreases |comps|
  {
    if comps != [] {
      var c, next := comps[0], Move(place, comps[0]);
      assert c in comps && comps == [c] + comps[1..];
      WalkDescends(next, comps[1..]);
      assert place <= next <= Resolve(next, comps[1..]);
    }
  }

  /** A walk whose only `..` may be its last step: when it stays at or below its start. */
  lemma {:induction false} LastStepDecides(place: seq<string>, comps: seq<string>)
    requires comps != [] && ".." !in comps[..|comps| - 1]
    ensures (forall m :: 0 <= m <= |comps| ==> place <= Resolve(place, comps[..m]))
       <==> comps[|comps| - 1] != ".." || place == []
            || exists c :: c in comps[..|comps| - 1] && Directory(c)
  {
    var front, last := comps[..|comps| - 1], comps[|comps| - 1];
    var stop := Resolve(place, front);
    WalkDescends(place, front);
    ResolveAppend(place, front, [last]);
    assert comps == front + [last] && comps[..|comps|] == comps;
    assert Resolve(Move(stop, last), []) == Move(stop, last);
    assert Resolve(place, comps) == Move(stop, last);
    forall m | 0 <= m < |comps| ensures place <= Resolve(place, comps[..m]) {
      assert comps[..m] == front[..m];
      WalkDescends(place, front[..m]);
    }
  }

  /** The walk over an accepted path's opened name stays at or below the base exactly when the
      joined name fits its buffer, or the cut did not leave `..` at its end, or the kept path
      went down a directory before that, or the base leads to the root. */
  lemma {:induction false} BelowBaseIff(start: seq<string>, base: CString, path: CString)
    requires |base| < 256 && Accepted(path)
    ensures var kept := Components(KeptPath(base, path));
            (StaysBelowBase(start, base, path)
             <==> || |base| + 1 + |path| < 512
                  || kept[|kept| - 1] != ".."
                  || (exists c :: c in kept[..|kept| - 1] && Directory(c))
                  || Resolve(start, Components(base)) == [])
  {
    var kept := Components(KeptPath(base, path));
    OpenedNameSplits(base, path);
    CutKeepsComponents(path, KeptPath(base, path));
    hide Components, OpenedName, KeptPath, Directory;
    LastStepDecides(Resolve(start, Components(base)), kept);
    WalkBehindBase(start, base, path, kept);
  }

  lemma {:induction false} WalkBehindBase(start: seq<string>, base: CString, path: CString, kept: seq<string>)
    requires Components(OpenedName(base, path)) == Components(base) + kept
    ensures var place := Resolve(start, Components(base));
            (StaysBelowBase(start, base, path)
             <==> forall m :: 0 <= m <= |kept| ==> place <= Resolve(place, kept[..m]))
  {
    hide Components, OpenedName, Resolve;
    var a := Components(base);
    forall m | 0 <= m <= |kept|
      ensures Resolve(start, (a + kept)[..|a| + m]) == Resolve(Resolve(start, a), kept[..m])
    {
      assert (a + kept)[..|a| + m] == a + kept[..m];
      ResolveAppend(start, a, kept[..m]);
    }
    if StaysBelowBase(start, base, path) {
      forall m | 0 <= m <= |kept| ensures Resolve(start, a) <= Resolve(Resolve(start, a), kept[..m]) {
        assert |a| <= |a| + m <= |a + kept|;
      }
    }
    if forall m :: 0 <= m <= |kept| ==> Resolve(start, a) <= Resolve(Resolve(start, a), kept[..m]) {
      forall n | |a| <= n <= |a + kept| ensures Resolve(start, a) <= Resolve(start, (a + kept)[..n]) {
        var m := n - |a|;
        assert Resolve(start, (a + kept)[..|a| + m]) == Resolve(Resolve(start, a), kept[..m]);
      }
    }
  }

  // ----- An accepted path whose cut name climbs -----

  /** `./`, n times, then the text. */
  function Dots(n: nat, tail: CString): CString
  {
    if n == 0 then tail else "./" + Dots(n - 1, tail)
  }

  lemma {:induction false} DotsAre(n: nat, tail: CString)
    ensures |Dots(n, tail)| == 2 * n + |tail|
    ensures Components(Dots(n, tail)) == seq(n, i => ".") + Components(tail)
  {
    if n == 0 {
      assert seq(0, i => ".") + Components(tail) == Components(tail);
    } else {
      var s := Dots(n, tail);
      DotsAre(n - 1, tail);
      SlashIs(s, 1);
      assert s[..1] == "." && s[2..] == Dots(n - 1, tail);
      hide Components, Dots;
      var front: seq<string> := seq(n - 1, i => ".");
      assert seq(n, i => ".") == ["."] + front;
      assert ["."] + (front + Components(tail)) == ["."] + front + Components(tail);
    }
  }

  lemma {:induction false} DotsPrefix(n: nat, tail: CString, more: CString)
    ensures Dots(n, tail) + more == Dots(n, tail + more)
  {
    if n == 0 {
    } else {
      DotsPrefix(n - 1, tail, more);
      TextsJoin("./", Dots(n - 1, tail), more);
    }
  }

  lemma TextsJoin(a: string, b: string, c: string)
    ensures a + (b + c) == a + b + c
  {
  }

  /** A joined name of 512 bytes loses the last one. */
  lemma LastByteIsCut(base: CString, front: CString, last: char)
    requires last != '\0' && |base| < BASE_MAX && |base| + 1 + |front| == FULL_PATH_MAX - 1
    ensures KeptPath(base, front + [last]) == front
  {
    var whole := base + "/" + (front + [last]);
    assert whole[..FULL_PATH_MAX - 1] == base + "/" + front;
    assert (base + "/" + front)[|base| + 1..] == front;
  }

  lemma {:induction false} DotsAccepted(n: nat, tail: CString)
    requires '/' !in tail && tail != ".." && n > 0
    ensures Accepted(Dots(n, tail))
  {
    DotsAre(n, tail);
    SlashNowhere(tail);
    hide Components;
  }

  /** Below the base "/b", the accepted path of 253 `./` and "..x" makes a name of 512 bytes;
      without its last byte it ends in `..` and leads above the base. */
  lemma {:induction false} CutNameClimbs()
    ensures Accepted(Dots(253, "..x"))
    ensures !StaysBelowBase([], "/b", Dots(253, "..x"))
  {
    hide Components, Dots, Accepted, StaysBelowBase, KeptPath, Resolve, OpenedName;
    var front := Dots(253, "..");
    var ones: seq<string> := seq(253, i => ".");
    DotsAccepted(253, "..x");
    DotsAre(253, "..");
    SlashNowhere("..");
    BaseComponents();
    DotsPrefix(253, "..", "x");
    assert ".." + "x" == "..x";
    LastByteIsCut("/b", front, 'x');
    assert KeptPath("/b", Dots(253, "..x")) == front;
    assert (ones + [".."])[..253] == ones;
    BelowBaseIff([], "/b", Dots(253, "..x"));
  }

  lemma SlashNowhere(s: string)
    requires '/' !in s
    ensures Components(s) == [s]
  {
  }

  lemma {:induction false} BaseComponents()
    ensures Resolve([], Components("/b")) == ["b"]
  {
    UnfoldBase();
    hide Components;
    assert Move([], "") == [] && Move([], "b") == ["b"];
    assert ["", "b"][1..] == ["b"] && ["b"][1..] == [];
    assert Resolve(["b"], []) == ["b"];
    assert Resolve([], ["b"]) == ["b"];
  }

  lemma {:induction false} UnfoldBase()
    ensures Components("/b") == ["", "b"]
  {
    SlashIs("/b", 0);
    assert "/b"[1..] == "b" && "/b"[..0] == "";
    SlashNowhere("b");
  }
}
