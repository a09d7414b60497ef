/** The file browser's path jail: lexical cleaning of client paths under a root directory. */
module PathJail {
  import opened Splitting
  import opened Options

  const SLASH: char := '/'

  /** A path element that means something. */
  predicate Significant(c: string) {
    c != "" && c != "."
  }

  function Kept(part: string): seq<string> {
    if Significant(part) then [part] else []
  }

  function Significants(parts: seq<string>): seq<string> {
    if parts == [] then [] else Kept(parts[0]) + Significants(parts[1..])
  }

  function Elements(path: string): seq<string> {
    Significants(Parts(path, SLASH))
  }

  /** One element after the cleaned ones; ".." undoes the last, or is dropped at the root. */
  function Entered(rooted: bool, stack: seq<string>, c: string): seq<string> {
    if c != ".." then stack + [c]
    else if stack != [] && stack[|stack| - 1] != ".." then stack[..|stack| - 1]
    else if rooted then stack
    else stack + [c]
  }

  function Reduced(rooted: bool, elements: seq<string>): seq<string> {
    if elements == [] then [] else
      var n := |elements| - 1;
      Entered(rooted, Reduced(rooted, elements[..n]), elements[n])
  }

  function Joined(elements: seq<string>): string {
    if elements == [] then "" else Rejoin(elements, SLASH)
  }

  function Rooted(elements: seq<string>): string {
    [SLASH] + Joined(elements)
  }

  predicate IsRooted(path: string) {
    path != "" && path[0] == SLASH
  }

  function Path(rooted: bool, elements: seq<string>): string {
    if rooted then Rooted(elements) else if elements == [] then "." else Joined(elements)
  }

  /** filepath.Clean on Unix */
  function Clean(path: string): string {
    Path(IsRooted(path), Reduced(IsRooted(path), Elements(path)))
  }

  /** filepath.Join of two elements; empty ones are left out. */
  function Join(a: string, b: string): string {
    if a == "" && b == "" then ""
    else if a == "" then Clean(b)
    else if b == "" then Clean(a)
    else Clean(a + [SLASH] + b)
  }

  /** A client's path under the root, refused if it does not come out under it. */
  function Safe(root: string, rel: string): Option<string> {
    var p := Join(root, Clean([SLASH] + rel));
    if p != root && !(root + [SLASH] <= p) then None else Some(p)
  }

  // ---- cleaning ----

  /** An element of a path, and one that goes down. */
  ghost predicate Sound(c: string) {
    Significant(c) && SLASH !in c
  }

  ghost predicate Plain(c: string) {
    Sound(c) && c != ".."
  }

  ghost predicate AllSound(elements: seq<string>) {
    forall c <- elements :: Sound(c)
  }

  ghost predicate AllPlain(elements: seq<string>) {
    forall c <- elements :: Plain(c)
  }

  /** Elements that cleaning leaves as they are. */
  ghost predicate Settled(rooted: bool, elements: seq<string>) {
    AllSound(elements) && Reduced(rooted, elements) == elements
  }

  lemma NoElements()
    ensures Elements("") == []
  {
    assert Parts("", SLASH) == [""];
    assert Significants([""]) == Kept("") + Significants([""][1..]);
  }

  lemma {:induction false} SignificantsAppend(a: seq<string>, b: seq<string>)
    ensures Significants(a + b) == Significants(a) + Significants(b)
  {
    hide Kept;
    if a == [] {
      assert a + b == b;
    } else {
      SignificantsAppend(a[1..], b);
      assert (a + b)[1..] == a[1..] + b && (a + b)[0] == a[0];
      var head, x, y := Kept(a[0]), Significants(a[1..]), Significants(b);
      assert Significants(a + b) == head + (x + y) && Significants(a) == head + x;
      hide Significants;
      assert head + (x + y) == (head + x) + y;
    }
  }

  lemma ElementsAppend(a: string, b: string)
    ensures Elements(a + [SLASH] + b) == Elements(a) + Elements(b)
  {
    assert a + [SLASH] + b == a + ([SLASH] + b);
    PartsAppend(a, b, SLASH);
    SignificantsAppend(Parts(a, SLASH), Parts(b, SLASH));
  }

  lemma ElementsRooted(path: string)
    ensures Elements([SLASH] + path) == Elements(path)
  {
    assert [SLASH] + path == "" + [SLASH] + path;
    ElementsAppend("", path);
  }

  lemma {:induction false} SignificantsSound(parts: seq<string>)
    requires AllSound(parts)
    ensures Significants(parts) == parts
  {
    if parts != [] {
      assert parts[0] in parts;
      assert AllSound(parts[1..]);
      SignificantsSound(parts[1..]);
    }
  }

  lemma ElementsJoined(elements: seq<string>)
    requires AllSound(elements)
    ensures Elements(Joined(elements)) == elements
  {
    if elements == [] {
      NoElements();
    } else {
      PartsRejoin(elements, SLASH);
      SignificantsSound(elements);
    }
  }

  lemma TopElements()
    ensures Elements([SLASH]) == [] && Elements(".") == []
  {
    ElementsRooted("");
    NoElements();
    assert [SLASH] + "" == [SLASH];
    PartsOfOne(".", SLASH);
    assert Significants(["."]) == Kept(".") + Significants(["."][1..]);
  }

  lemma ElementsOfPath(rooted: bool, elements: seq<string>)
    requires AllSound(elements)
    ensures Elements(Path(rooted, elements)) == elements
  {
    hide Elements;
    ElementsJoined(elements);
    ElementsRooted(Joined(elements));
    TopElements();
  }

  lemma PathRooted(rooted: bool, elements: seq<string>)
    requires AllSound(elements)
    ensures IsRooted(Path(rooted, elements)) == rooted
  {
    if !rooted && elements != [] {
      var c := elements[0];
      assert c in elements && c[0] in c;
      assert Joined(elements)[0] == c[0];
    }
  }

  lemma {:induction false} SignificantsSlashFree(parts: seq<string>)
    requires forall p <- parts :: SLASH !in p
    ensures AllSound(Significants(parts))
  {
    if parts != [] {
      assert parts[0] in parts;
      SignificantsSlashFree(parts[1..]);
    }
  }

  lemma {:induction false} ReducedSound(rooted: bool, elements: seq<string>)
    requires AllSound(elements)
    ensures AllSound(Reduced(rooted, elements)) && (rooted ==> AllPlain(Reduced(rooted, elements)))
  {
    if elements != [] {
      var n := |elements| - 1;
      assert elements[n] in elements;
      assert AllSound(elements[..n]);
      ReducedSound(rooted, elements[..n]);
    }
  }

  /** Every element before the last one of settled elements is there to stay. */
  lemma SettledFront(rooted: bool, elements: seq<string>)
    requires Reduced(rooted, elements) == elements != []
    ensures Reduced(rooted, elements[..|elements| - 1]) == elements[..|elements| - 1]
  {
    ReducedShort(rooted, elements[..|elements| - 1]);
  }

  lemma {:induction false} ReducedShort(rooted: bool, elements: seq<string>)
    ensures |Reduced(rooted, elements)| <= |elements|
  {
    if elements != [] {
      ReducedShort(rooted, elements[..|elements| - 1]);
    }
  }

  lemma {:induction false} ReducedSettled(rooted: bool, elements: seq<string>)
    ensures Reduced(rooted, Reduced(rooted, elements)) == Reduced(rooted, elements)
  {
    if elements != [] {
      var n := |elements| - 1;
      var stack, c := Reduced(rooted, elements[..n]), elements[n];
      ReducedSettled(rooted, elements[..n]);
      if stack != [] {
        SettledFront(rooted, stack);
      }
      assert (stack + [c])[..|stack|] == stack;
    }
  }

  /** What cleaning makes of any path is settled. */
  lemma CleanSettled(rooted: bool, path: string)
    ensures Settled(rooted, Reduced(rooted, Elements(path)))
    ensures rooted ==> AllPlain(Reduced(rooted, Elements(path)))
  {
    PartsSepFree(path, SLASH);
    SignificantsSlashFree(Parts(path, SLASH));
    ReducedSound(rooted, Elements(path));
    ReducedSettled(rooted, Elements(path));
  }

  lemma CleanPath(rooted: bool, elements: seq<string>)
    requires Settled(rooted, elements)
    ensures Clean(Path(rooted, elements)) == Path(rooted, elements)
  {
    hide Path, Elements, IsRooted, Reduced;
    ElementsOfPath(rooted, elements);
    PathRooted(rooted, elements);
  }

  lemma SoundPrefix(elements: seq<string>, k: nat)
    requires AllSound(elements) && k <= |elements|
    ensures AllSound(elements[..k])
  {
    hide Sound;
    assert forall c <- elements[..k] :: c in elements;
  }

  lemma {:induction false} SettledPrefix(rooted: bool, elements: seq<string>, k: nat)
    requires Settled(rooted, elements) && k <= |elements|
    ensures Settled(rooted, elements[..k])
  {
    hide Reduced, Sound;
    if k == |elements| {
      assert elements[..k] == elements;
    } else {
      var front := elements[..|elements| - 1];
      SettledFront(rooted, elements);
      SoundPrefix(elements, |elements| - 1);
      SettledPrefix(rooted, front, k);
      assert front[..k] == elements[..k];
    }
  }

  /** Plain elements only go down. */
  lemma {:induction false} ReducedAppend(rooted: bool, elements: seq<string>, cs: seq<string>)
    requires AllPlain(cs)
    ensures Reduced(rooted, elements + cs) == Reduced(rooted, elements) + cs
  {
    if cs == [] {
      assert elements + cs == elements;
    } else {
      var n := |cs| - 1;
      var all := elements + cs;
      assert cs[n] in cs && cs[n] != "..";
      assert AllPlain(cs[..n]) by { assert forall c <- cs[..n] :: c in cs; }
      hide Plain, AllPlain;
      ReducedAppend(rooted, elements, cs[..n]);
      assert all[..|elements| + n] == elements + cs[..n] && all[|elements| + n] == cs[n];
      assert (Reduced(rooted, elements) + cs[..n]) + [cs[n]] == Reduced(rooted, elements) + cs;
    }
  }

  // ---- the jail ----

  /** A root that cleaning leaves as it is and that has elements. */
  ghost predicate CleanRoot(root: string) {
    root != "" && root != [SLASH] && root != "." && Clean(root) == root
  }

  /** The elements of a clean root. */
  lemma RootElements(root: string) returns (elements: seq<string>)
    requires CleanRoot(root)
    ensures elements != [] && Settled(IsRooted(root), elements) && root == Path(IsRooted(root), elements)
    ensures Elements(root) == elements && (IsRooted(root) ==> AllPlain(elements))
  {
    elements := Reduced(IsRooted(root), Elements(root));
    CleanSettled(IsRooted(root), root);
    ElementsOfPath(IsRooted(root), elements);
    NothingJoined();
  }

  /** A path under the root. */
  function Under(root: string, elements: seq<string>): string {
    if elements == [] then root else root + [SLASH] + Joined(elements)
  }

  lemma {:induction false} JoinedAppend(a: seq<string>, b: seq<string>)
    requires a != [] && b != []
    ensures Joined(a + b) == Joined(a) + [SLASH] + Joined(b)
  {
    if |a| == 1 {
      assert (a + b)[1..] == b;
    } else {
      JoinedAppend(a[1..], b);
      assert (a + b)[1..] == a[1..] + b;
      assert a[0] + [SLASH] + (Joined(a[1..]) + [SLASH] + Joined(b))
          == (a[0] + [SLASH] + Joined(a[1..])) + [SLASH] + Joined(b);
    }
  }

  lemma UnderPath(rooted: bool, rs: seq<string>, cs: seq<string>)
    requires rs != []
    ensures Path(rooted, rs + cs) == Under(Path(rooted, rs), cs)
  {
    if cs == [] {
      assert rs + cs == rs;
    } else {
      JoinedAppend(rs, cs);
      assert [SLASH] + (Joined(rs) + [SLASH] + Joined(cs)) == ([SLASH] + Joined(rs)) + [SLASH] + Joined(cs);
    }
  }

  /** What the client's path is by itself: its elements under "/". */
  function Asked(rel: string): seq<string> {
    Reduced(true, Elements(rel))
  }

  lemma AskedPlain(rel: string)
    ensures AllPlain(Asked(rel)) && Settled(true, Asked(rel))
    ensures Clean([SLASH] + rel) == Rooted(Asked(rel))
  {
    hide Elements, Reduced;
    CleanSettled(true, rel);
    ElementsRooted(rel);
  }

  /** What joining the client's path to a root gives. */
  lemma JoinIs(root: string, rel: string)
    requires root != ""
    ensures Join(root, Clean([SLASH] + rel))
         == Path(IsRooted(root), Reduced(IsRooted(root), Elements(root)) + Asked(rel))
  {
    hide Elements, Reduced, Asked, Path;
    var cs := Asked(rel);
    AskedPlain(rel);
    ElementsOfPath(true, cs);
    assert Rooted(cs) == Path(true, cs) by { RootedIsPath(cs); }
    ElementsAppend(root, Rooted(cs));
    ReducedAppend(IsRooted(root), Elements(root), cs);
    assert IsRooted(root + [SLASH] + Rooted(cs)) == IsRooted(root);
  }

  lemma RootedIsPath(elements: seq<string>)
    ensures Rooted(elements) == Path(true, elements)
  {}

  /** Every client path comes out as the root followed by the path's own cleaned elements. */
  lemma SafeIs(root: string, rel: string)
    requires CleanRoot(root)
    ensures Safe(root, rel) == Some(Under(root, Asked(rel)))
  {
    hide Elements, Reduced, Asked, Path, Join, Clean;
    var rs := RootElements(root);
    JoinIs(root, rel);
    UnderPath(IsRooted(root), rs, Asked(rel));
  }

  /** The result is the root or lies under it, is clean, and only goes down from the root; under an absolute
      root it has no ".." at all. */
  lemma Contained(root: string, rel: string)
    requires CleanRoot(root)
    ensures Safe(root, rel).Some?
    ensures var p := Safe(root, rel).value;
            && (p == root || root + [SLASH] <= p) && Clean(p) == p
            && Elements(p) == Elements(root) + Asked(rel) && AllPlain(Asked(rel))
            && (IsRooted(root) ==> AllPlain(Elements(p)))
  {
    hide Elements, Reduced, Asked, Path, Join, Clean, Joined;
    SafeIs(root, rel);
    var rs := RootElements(root);
    var cs := Asked(rel);
    AskedPlain(rel);
    UnderPath(IsRooted(root), rs, cs);
    ReducedAppend(IsRooted(root), rs, cs);
    assert AllSound(rs + cs);
    ElementsOfPath(IsRooted(root), rs + cs);
    CleanPath(IsRooted(root), rs + cs);
  }

  /** The part of a result below the root leads to the same result. */
  lemma Idempotent(root: string, rel: string)
    requires CleanRoot(root)
    ensures Safe(root, rel).Some? && root <= Safe(root, rel).value
    ensures var p := Safe(root, rel).value; Safe(root, p[|root|..]) == Some(p)
  {
    hide Parts, Rejoin, Reduced, Significants;
    SafeIs(root, rel);
    var cs := Asked(rel);
    AskedPlain(rel);
    var below := Under(root, cs)[|root|..];
    if cs != [] {
      assert below == [SLASH] + Joined(cs);
      ElementsRooted(Joined(cs));
      ElementsJoined(cs);
    } else {
      assert below == "" && Elements(below) == [] by { NoElements(); }
    }
    SafeIs(root, below);
  }

  /** Going down by a plain name goes down by that name. */
  lemma Descend(root: string, rel: string, name: string)
    requires CleanRoot(root) && Plain(name)
    ensures Safe(root, rel).Some?
    ensures Safe(root, rel + [SLASH] + name) == Some(Safe(root, rel).value + [SLASH] + name)
  {
    hide Parts, Rejoin, Significants, Elements, Joined, Reduced;
    var es, cs := Elements(rel), Asked(rel);
    SafeIs(root, rel);
    SafeIs(root, rel + [SLASH] + name);
    JoinedOne(name);
    ElementsJoined([name]);
    ElementsAppend(rel, name);
    ReducedNext(es, name);
    assert Safe(root, rel + [SLASH] + name) == Some(Under(root, cs + [name]));
    if cs != [] {
      JoinedAppend(cs, [name]);
      assert root + [SLASH] + (Joined(cs) + [SLASH] + name) == (root + [SLASH] + Joined(cs)) + [SLASH] + name;
    } else {
      assert cs + [name] == [name];
    }
  }

  lemma ReducedNext(elements: seq<string>, name: string)
    requires Plain(name)
    ensures Reduced(true, elements + [name]) == Reduced(true, elements) + [name]
  {
    assert (elements + [name])[..|elements|] == elements;
  }

  lemma JoinedOne(name: string)
    ensures Joined([name]) == name
  {}

  // ---- exactly what is accepted ----

  /** A path that a clean path goes on from, at a separator, is clean. */
  lemma CleanAbove(root: string, rooted: bool, elements: seq<string>)
    requires root != "" && Settled(rooted, elements) && root + [SLASH] <= Path(rooted, elements)
    ensures CleanRoot(root)
  {
    hide Parts, Rejoin, Reduced, Significants;
    if rooted {
      RootedAbove(root, Joined(elements));
    }
    var rel := if rooted then root[1..] else root;
    var above := PartsAbove(rel, elements);
    SettledPrefix(rooted, elements, |above|);
    RejoinParts(rel, SLASH);
    assert root == Path(rooted, above);
    CleanPath(rooted, above);
    ElementsOfPath(rooted, above);
    TopElements();
  }

  lemma RootedAbove(root: string, p: string)
    requires root != "" && root + [SLASH] <= [SLASH] + p
    ensures root == [SLASH] + root[1..] && root[1..] + [SLASH] <= p
  {
    var full, n := [SLASH] + p, |root|;
    assert full[..n + 1] == root + [SLASH];
    assert root[0] == full[0] && root == [root[0]] + root[1..];
    assert p[..n] == full[1..n + 1] == (root + [SLASH])[1..] == root[1..] + [SLASH];
  }

  lemma SplitAbove(rel: string, p: string)
    requires rel + [SLASH] <= p
    ensures p == rel + ([SLASH] + p[|rel| + 1..])
  {
    var n := |rel| + 1;
    assert p == p[..n] + p[n..] && p[..n] == rel + [SLASH];
    assert (rel + [SLASH]) + p[n..] == rel + ([SLASH] + p[n..]);
  }

  lemma PartsAbove(rel: string, elements: seq<string>) returns (above: seq<string>)
    requires AllSound(elements) && rel + [SLASH] <= Joined(elements)
    ensures above == Parts(rel, SLASH) && |above| <= |elements| && above == elements[..|above|]
  {
    hide Parts, Rejoin;
    var p := Joined(elements);
    assert elements != [];
    SplitAbove(rel, p);
    var rest := p[|rel| + 1..];
    PartsAppend(rel, rest, SLASH);
    PartsRejoin(elements, SLASH);
    above := Parts(rel, SLASH);
    assert elements == above + Parts(rest, SLASH);
  }

  /** For every root: a client path is accepted exactly when the root is empty, or is clean and has elements,
      or is "/" or "." and the path cleans to nothing. */
  lemma SafeIff(root: string, rel: string)
    ensures Safe(root, rel).Some?
       <==> root == "" || (Clean(root) == root && ((root != [SLASH] && root != ".") || Asked(rel) == []))
  {
    hide Clean, Asked, Safe;
    if root == "" {
      EmptyRoot(rel);
    } else if CleanRoot(root) {
      SafeIs(root, rel);
    } else if root == [SLASH] || root == "." {
      TopRefuses(root, rel);
    } else {
      UncleanRefuses(root, rel);
    }
  }

  /** Without a root every path is accepted, and comes out absolute. */
  lemma EmptyRoot(rel: string)
    ensures Safe("", rel) == Some(Rooted(Asked(rel)))
  {
    hide Reduced, Elements, Asked, Clean;
    AskedPlain(rel);
    CleanPath(true, Asked(rel));
  }

  /** Under "/" and "." only the root itself is accepted. */
  lemma TopRefuses(root: string, rel: string)
    requires root == [SLASH] || root == "."
    ensures Clean(root) == root
    ensures Safe(root, rel) == if Asked(rel) == [] then Some(root) else None
  {
    hide Parts, Rejoin, Significants, Elements, Joined, Asked, Join;
    var cs := Asked(rel);
    JoinIs(root, rel);
    TopElements();
    assert Reduced(IsRooted(root), Elements(root)) == [] && [] + cs == cs;
    assert Path(IsRooted(root), []) == root by { assert Joined([]) == "" by { NothingJoined(); } }
    AskedPlain(rel);
    ReducedAppend(IsRooted(root), [], cs);
    assert Settled(IsRooted(root), cs);
    if root + [SLASH] <= Path(IsRooted(root), cs) {
      CleanAbove(root, IsRooted(root), cs);
    }
    if cs != [] {
      ElementsOfPath(IsRooted(root), cs);
    }
  }

  lemma NothingJoined()
    ensures Joined([]) == ""
  {}

  /** Under a root that is not clean nothing is. */
  lemma UncleanRefuses(root: string, rel: string)
    requires root != "" && Clean(root) != root
    ensures Safe(root, rel).None?
  {
    hide Parts, Rejoin, Significants, Elements, Joined, Asked, Join, Reduced, Path;
    var rooted, cs := IsRooted(root), Asked(rel);
    var rs := Reduced(rooted, Elements(root));
    JoinIs(root, rel);
    AskedPlain(rel);
    CleanSettled(rooted, root);
    ReducedAppend(rooted, rs, cs);
    assert Settled(rooted, rs + cs);
    CleanPath(rooted, rs + cs);
    if root + [SLASH] <= Path(rooted, rs + cs) {
      CleanAbove(root, rooted, rs + cs);
    }
  }

  // ---- what the special elements do ----

  lemma SameAsked(root: string, rel: string, other: string)
    requires Asked(rel) == Asked(other)
    ensures Safe(root, rel) == Safe(root, other)
  {
    hide Asked, Join, Clean;
    AskedPlain(rel);
    AskedPlain(other);
  }

  lemma SpecialElements()
    ensures Elements("..") == [".."] && Elements(".") == [] && Elements("") == []
  {
    PartsOfOne("..", SLASH);
    TopElements();
    NoElements();
    assert Significants([".."]) == Kept("..") + Significants([".."][1..]);
  }

  lemma AskedUp(rel: string, name: string)
    requires Plain(name)
    ensures Asked(rel + [SLASH] + name + [SLASH] + "..") == Asked(rel)
  {
    hide Parts, Rejoin, Significants, Elements;
    var es, down := Elements(rel), rel + [SLASH] + name;
    SpecialElements();
    JoinedOne(name);
    ElementsJoined([name]);
    ElementsAppend(rel, name);
    ElementsAppend(down, "..");
    ReducedAppend(true, es, [name]);
    AskedPlain(rel);
    hide Reduced, Asked;
    assert AllPlain(Reduced(true, es) + [name]);
    ReducedUp(es + [name]);
    assert (Reduced(true, es) + [name])[..|Reduced(true, es)|] == Reduced(true, es);
  }

  /** ".." takes back one step down, */
  lemma UpTakesBack(root: string, rel: string, name: string)
    requires Plain(name)
    ensures Safe(root, rel + "/" + name + "/" + "..") == Safe(root, rel)
  {
    hide *;
    AskedUp(rel, name);
    SameAsked(root, rel + [SLASH] + name + [SLASH] + "..", rel);
    SlashIs();
  }

  lemma SlashIs()
    ensures "/" == [SLASH]
  {}

  lemma ReducedUp(elements: seq<string>)
    ensures var stack := Reduced(true, elements);
            AllPlain(stack) ==> Reduced(true, elements + [".."]) == if stack == [] then [] else stack[..|stack| - 1]
  {
    assert (elements + [".."])[..|elements|] == elements;
    var stack := Reduced(true, elements);
    if AllPlain(stack) && stack != [] {
      assert stack[|stack| - 1] in stack;
    }
  }

  /** nothing at the top; "." and a second separator do nothing anywhere. */
  lemma Nothing(root: string, rel: string)
    ensures Asked(rel) == [] ==> Safe(root, rel + "/" + "..") == Safe(root, rel)
    ensures Safe(root, rel + "/" + ".") == Safe(root, rel) && Safe(root, rel + "/") == Safe(root, rel)
  {
    assert "/" == [SLASH] && rel + [SLASH] + "" == rel + [SLASH];
    hide Parts, Rejoin, Significants, Elements, Safe;
    SpecialElements();
    ElementsAppend(rel, "..");
    ElementsAppend(rel, ".");
    ElementsAppend(rel, "");
    AskedPlain(rel);
    ReducedUp(Elements(rel));
    assert Elements(rel) + [] == Elements(rel);
    SameAsked(root, rel + [SLASH] + ".", rel);
    SameAsked(root, rel + [SLASH] + "", rel);
    if Asked(rel) == [] {
      SameAsked(root, rel + [SLASH] + "..", rel);
    }
  }
}
