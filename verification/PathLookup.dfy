/**
 vfs_lookup of kernel-src/fs/vfs.c over an arbitrary tree of nodes with symbolic links and mounted
 file systems. Locks, reference counts and credentials are left out; whether a directory may be
 searched is part of the tree.
 */
module PathLookup {

  const MAX_LINK_DEPTH: nat := 64
  const PATHNAME_MAX: nat := 512

  datatype Kind = Dir | Link | Other

  /** What the file systems say: the kind of each node, the entries of directories ("." and ".."
      among them), the text of links, what is mounted where and what a mounted root covers, and how
      deep in the stack of mounts a node is. Base is the root of the tree, home the root of the
      calling process. */
  datatype Tree = Tree(kind: map<nat, Kind>, entry: map<(nat, string), nat>, text: map<nat, string>,
                       searchable: set<nat>, mounted: map<nat, nat>, covered: map<nat, nat>, level: map<nat, nat>,
                       depth: nat, base: nat, home: nat)

  datatype Result = Found(node: nat)
    | FoundParent(parent: nat, last: string) | NotDirectory | NoEntry | NoAccess | Loop | NameTooLong

  function KindOf(t: Tree, n: nat): (k: Kind) {
    if n in t.kind then t.kind[n] else Other
  }

  function TextOf(t: Tree, n: nat): (s: string) {
    if n in t.text then t.text[n] else []
  }

  function Level(t: Tree, n: nat): (l: nat) {
    if n in t.level then t.level[n] else 0
  }

  /** Mounts are stacked: a mounted root is above the node it covers, and the stack is finite. */
  ghost predicate MountsOk(t: Tree) {
    && (forall n :: n in t.mounted ==> Level(t, n) < Level(t, t.mounted[n]) <= t.depth)
    && (forall r :: r in t.covered ==> Level(t, t.covered[r]) < Level(t, r))
  }

  /** The root of the topmost file system mounted on a node. */
  function Highest(t: Tree, n: nat): (r: nat)
    requires MountsOk(t)
    decreases t.depth - Level(t, n)
  {
    if n in t.mounted then Highest(t, t.mounted[n]) else n
  }

  /** The node under a stack of mounted roots. */
  function Lowest(t: Tree, n: nat): (r: nat)
    requires MountsOk(t)
    decreases Level(t, n)
  {
    if n in t.covered then Lowest(t, t.covered[n]) else n
  }

  method HighestInMount(t: Tree, n: nat) returns (r: nat)
    requires MountsOk(t)
    ensures r == Highest(t, n) && r !in t.mounted
  {
    r := n;
    while r in t.mounted
      invariant Highest(t, r) == Highest(t, n)
      decreases t.depth - Level(t, r)
    {
      r := t.mounted[r];
    }
  }

  method LowestInMount(t: Tree, n: nat) returns (r: nat)
    requires MountsOk(t)
    ensures r == Lowest(t, n) && r !in t.covered
  {
    r := n;
    while r in t.covered
      invariant Lowest(t, r) == Lowest(t, n)
      decreases Level(t, r)
    {
      r := t.covered[r];
    }
  }

  // ----- Components of a path

  /** Where the first word of a path ends. */
  function WordEnd(p: string): (e: nat)
    ensures e <= |p| && (forall k :: 0 <= k < e ==> p[k] != '/') && (e < |p| ==> p[e] == '/')
  {
    if p == [] || p[0] == '/' then 0 else 1 + WordEnd(p[1..])
  }

  /** The words between slashes. */
  function Components(p: string): (cs: seq<string>)
    decreases |p|
  {
    if p == [] then []
    else if p[0] == '/' then Components(p[1..])
    else [p[..WordEnd(p)]] + Components(p[WordEnd(p)..])
  }

  predicate OnlySlashes(p: string) {
    forall k :: 0 <= k < |p| ==> p[k] == '/'
  }

  lemma {:induction false} NoComponents(p: string)
    ensures Components(p) == [] <==> OnlySlashes(p)
  {
    if p != [] && p[0] == '/' {
      NoComponents(p[1..]);
      assert OnlySlashes(p[1..]) ==> forall k :: 0 <= k < |p| ==> p[k] == if k == 0 then '/' else p[1..][k - 1];
    } else if p != [] {
      assert !OnlySlashes(p);
    }
  }

  /** Slashes only separate: however many there are, and wherever they are, the words on both sides
      are the same. */
  lemma {:induction false} ComponentsJoin(p: string, q: string)
    ensures Components(p + "/" + q) == Components(p) + Components(q)
    decreases |p|
  {
    hide Components;
    var all := p + "/" + q;
    if p == [] {
      NoWord(p);
      SlashFirst(all);
      assert all[1..] == q;
    } else if p[0] == '/' {
      SlashFirst(p);
      SlashFirst(all);
      assert all[1..] == p[1..] + "/" + q;
      ComponentsJoin(p[1..], q);
    } else {
      WordFirst(p);
      WordJoin(p, q);
      ComponentsJoin(p[WordEnd(p)..], q);
    }
  }

  lemma NoWord(p: string)
    requires p == []
    ensures Components(p) == []
  {}

  lemma SlashFirst(p: string)
    requires p != [] && p[0] == '/'
    ensures Components(p) == Components(p[1..])
  {}

  lemma WordFirst(p: string)
    requires p != [] && p[0] != '/'
    ensures Components(p) == [p[..WordEnd(p)]] + Components(p[WordEnd(p)..])
  {}

  lemma WordJoin(p: string, q: string)
    requires p != [] && p[0] != '/'
    ensures Components(p + "/" + q) == [p[..WordEnd(p)]] + Components(p[WordEnd(p)..] + "/" + q)
  {
    var all, e := p + "/" + q, WordEnd(p);
    WordEndUnique(all, e);
    assert all[..e] == p[..e] && all[e..] == p[e..] + "/" + q;
  }

  lemma WordEndUnique(p: string, e: nat)
    requires e <= |p| && (forall k :: 0 <= k < e ==> p[k] != '/') && (e < |p| ==> p[e] == '/')
    ensures WordEnd(p) == e
  {}

  lemma TrailingSlash(p: string)
    ensures Components(p + "/") == Components(p)
  {
    ComponentsJoin(p, "");
    assert p + "/" + "" == p + "/";
  }

  // ----- The reference: one component at a time

  /** Resolves components from a node. D counts the links that are being followed around this call;
      a call from outside has none. */
  function Resolve(t: Tree, n: nat, cs: seq<string>, parent: bool, nolink: bool, d: nat): (r: Result)
    requires MountsOk(t) && d <= MAX_LINK_DEPTH + 1
    decreases MAX_LINK_DEPTH + 2 - d, 1, |cs|
  {
    if cs == [] then Found(n)
    else if KindOf(t, n) != Dir then NotDirectory
    else if |cs| == 1 && parent then FoundParent(n, cs[0])
    else
      var r := Walk(t, n, cs[0], |cs| > 1 || !nolink, d);
      if r.Found? then Resolve(t, r.node, cs[1..], parent, nolink, d) else r
  }

  /** One component from a directory, through the link that it may be. */
  function Walk(t: Tree, n: nat, name: string, follow: bool, d: nat): (r: Result)
    requires MountsOk(t) && d <= MAX_LINK_DEPTH + 1
    decreases MAX_LINK_DEPTH + 2 - d, 0, 0
  {
    if name == ".." && Highest(t, t.base) == n then Found(n) else
    var at := if name == ".." then Lowest(t, n) else n;
    var step := Entry(t, at, name);
    if !step.Found? || KindOf(t, step.node) != Link || !follow then step else
    var text := TextOf(t, step.node);
    match Lookup(t, if text != [] && text[0] == '/' then t.home else at, text, false, false, d + 1)
    case Found(node) => Found(node)
    case FoundParent(_, _) => NoEntry
    case error => error
  }

  /** VOP_LOOKUP and the crossing of mount points. */
  function Entry(t: Tree, n: nat, name: string): (r: Result)
    requires MountsOk(t)
  {
    if n !in t.searchable then NoAccess
    else if (n, name) !in t.entry then NoEntry
    else Found(Highest(t, t.entry[(n, name)]))
  }

  function Lookup(t: Tree, start: nat, path: string, parent: bool, nolink: bool, d: nat): (r: Result)
    requires MountsOk(t) && d <= MAX_LINK_DEPTH + 2
    decreases MAX_LINK_DEPTH + 2 - d, 2, 0
  {
    if d > MAX_LINK_DEPTH + 1 then Loop
    else if path == [] then if parent then NoEntry else Found(Highest(t, start))
    else if |path| > PATHNAME_MAX then NameTooLong
    else Resolve(t, Highest(t, start), Components(path), parent, nolink, d)
  }

  /** Dot-dot at the root of the tree stays there. */
  lemma DotDotAtRoot(t: Tree, cs: seq<string>, nolink: bool, d: nat)
    requires MountsOk(t) && d <= MAX_LINK_DEPTH + 1 && KindOf(t, Highest(t, t.base)) == Dir
    ensures Resolve(t, Highest(t, t.base), [".."] + cs, false, nolink, d)
         == Resolve(t, Highest(t, t.base), cs, false, nolink, d)
  {
    assert ([".."] + cs)[1..] == cs;
  }

  /** Dot-dot at the root of a mounted file system is dot-dot at the node that it covers. */
  lemma DotDotAtMount(t: Tree, n: nat, cs: seq<string>, nolink: bool, d: nat)
    requires MountsOk(t) && d <= MAX_LINK_DEPTH + 1 && n in t.covered && n != Highest(t, t.base) && KindOf(t, n) == Dir
    requires t.covered[n] != Highest(t, t.base) && KindOf(t, t.covered[n]) == Dir
    ensures Resolve(t, n, [".."] + cs, false, nolink, d) == Resolve(t, t.covered[n], [".."] + cs, false, nolink, d)
  {}

  /** Resolving a path in two parts is resolving the first and then the second. */
  lemma {:induction false} ResolveJoin(t: Tree, n: nat, cs: seq<string>, rest: seq<string>, parent: bool,
                                       nolink: bool, d: nat)
    requires MountsOk(t) && d <= MAX_LINK_DEPTH + 1 && rest != []
    ensures var r := Resolve(t, n, cs, false, false, d);
            Resolve(t, n, cs + rest, parent, nolink, d)
            == if r.Found? then Resolve(t, r.node, rest, parent, nolink, d) else r
    decreases |cs|
  {
    hide Walk;
    if cs == [] {
      assert cs + rest == rest;
    } else {
      assert (cs + rest)[1..] == cs[1..] + rest;
      var r := Walk(t, n, cs[0], true, d);
      if r.Found? { ResolveJoin(t, r.node, cs[1..], rest, parent, nolink, d); }
    }
  }

  /** A path whose lookup comes to a place of the set, whatever the depth: what is before it resolves
      to the directory of the place, or is already reported as a loop. */
  ghost predicate LeadsTo(t: Tree, places: set<(nat, string)>, start: nat, path: string)
    requires MountsOk(t)
  {
    && 0 < |path| <= PATHNAME_MAX
    && exists before, name, after, m :: ComesTo(t, places, start, path, before, name, after, m)
  }

  ghost predicate ComesTo(t: Tree, places: set<(nat, string)>, start: nat, path: string, before: seq<string>,
                          name: string, after: seq<string>, m: nat)
    requires MountsOk(t)
  {
    && Components(path) == before + ([name] + after) && (m, name) in places
    && forall d: nat :: d <= MAX_LINK_DEPTH + 1 ==> ResolvesTo(t, Highest(t, start), before, m, d)
  }

  ghost predicate ResolvesTo(t: Tree, n: nat, cs: seq<string>, m: nat, d: nat)
    requires MountsOk(t) && d <= MAX_LINK_DEPTH + 1
  {
    Resolve(t, n, cs, false, false, d) == Found(m) || Resolve(t, n, cs, false, false, d) == Loop
  }

  /** Places of links, each of which leads to a place of the set. */
  ghost predicate Cyclic(t: Tree, places: set<(nat, string)>)
    requires MountsOk(t)
  {
    forall n, name :: (n, name) in places ==> LinkInto(t, places, n, name)
  }

  ghost predicate LinkInto(t: Tree, places: set<(nat, string)>, n: nat, name: string)
    requires MountsOk(t)
  {
    && name != ".." && KindOf(t, n) == Dir && Entry(t, n, name).Found? && KindOf(t, Entry(t, n, name).node) == Link
    && var text := TextOf(t, Entry(t, n, name).node);
       LeadsTo(t, places, if text != [] && text[0] == '/' then t.home else n, text)
  }

  lemma InCycle(t: Tree, places: set<(nat, string)>, n: nat, name: string)
    requires MountsOk(t) && Cyclic(t, places) && (n, name) in places
    ensures LinkInto(t, places, n, name)
  {}

  lemma WalkLoops(t: Tree, n: nat, name: string, d: nat)
    requires MountsOk(t) && d <= MAX_LINK_DEPTH + 1 && name != ".."
    requires Entry(t, n, name).Found? && KindOf(t, Entry(t, n, name).node) == Link
    requires var text := TextOf(t, Entry(t, n, name).node);
             Lookup(t, if text != [] && text[0] == '/' then t.home else n, text, false, false, d + 1) == Loop
    ensures Walk(t, n, name, true, d) == Loop
  {}

  lemma ResolveLoops(t: Tree, n: nat, before: seq<string>, name: string, after: seq<string>, m: nat, d: nat)
    requires MountsOk(t) && d <= MAX_LINK_DEPTH + 1 && ResolvesTo(t, n, before, m, d)
    requires KindOf(t, m) == Dir && Walk(t, m, name, true, d) == Loop
    ensures Resolve(t, n, before + ([name] + after), false, false, d) == Loop
  {
    hide Walk;
    ResolveJoin(t, n, before, [name] + after, false, false, d);
  }

  /** A path into a cycle of links, of any length and shape, is reported as a loop, at any depth. */
  lemma {:induction false} CyclicLinks(t: Tree, places: set<(nat, string)>, start: nat, path: string, d: nat)
    requires MountsOk(t) && d <= MAX_LINK_DEPTH + 2 && Cyclic(t, places) && LeadsTo(t, places, start, path)
    ensures Lookup(t, start, path, false, false, d) == Loop
    decreases MAX_LINK_DEPTH + 2 - d
  {
    hide Components, Walk, Resolve, ResolvesTo, Cyclic, Entry;
    if d <= MAX_LINK_DEPTH + 1 {
      var before, name, after, m :| ComesTo(t, places, start, path, before, name, after, m);
      assert ResolvesTo(t, Highest(t, start), before, m, d);
      InCycle(t, places, m, name);
      var text := TextOf(t, Entry(t, m, name).node);
      CyclicLinks(t, places, if text != [] && text[0] == '/' then t.home else m, text, d + 1);
      WalkLoops(t, m, name, d);
      ResolveLoops(t, Highest(t, start), before, name, after, m, d);
    }
  }

  /** The shortest one: a link that leads back to itself. */
  lemma CyclicLink(t: Tree, n: nat, name: string, d: nat)
    requires MountsOk(t) && d <= MAX_LINK_DEPTH + 2 && n !in t.mounted && KindOf(t, n) == Dir
    requires 0 < |name| <= PATHNAME_MAX && (forall k :: 0 <= k < |name| ==> name[k] != '/') && name != ".."
    requires Entry(t, n, name).Found? && KindOf(t, Entry(t, n, name).node) == Link
    requires TextOf(t, Entry(t, n, name).node) == name
    ensures Lookup(t, n, name, false, false, d) == Loop
  {
    WordEndUnique(name, |name|);
    assert name[..|name|] == name && name[|name|..] == [];
    assert Components(name) == [] + ([name] + []);
    assert ComesTo(t, {(n, name)}, n, name, [], name, [], n);
    CyclicLinks(t, {(n, name)}, n, name, d);
  }

  // ----- The code

  /** vfs_lookup. It terminates on every graph of links: each link followed is nested one deeper, and
      each round of the loop leaves less of the path. */
  method VfsLookup(t: Tree, start: nat, path: string, parent: bool, nolink: bool, d: nat) returns (r: Result)
    requires MountsOk(t) && d <= MAX_LINK_DEPTH + 2
    ensures r == Lookup(t, start, path, parent, nolink, d)
    decreases MAX_LINK_DEPTH + 2 - d, 1
  {
    hide Walk;
    if d > MAX_LINK_DEPTH + 1 {
      return Loop;
    }
    if |path| == 0 {
      if parent {
        return NoEntry;
      }
      var highest := HighestInMount(t, start);
      return Found(highest);
    }
    if |path| > PATHNAME_MAX {
      return NameTooLong;
    }
    var current := HighestInMount(t, start);
    var i := 0;
    ghost var goal := Resolve(t, current, Components(path), parent, nolink, d);
    assert path[0..] == path;
    while i < |path|
      invariant i <= |path| && goal == Resolve(t, current, Components(path[i..]), parent, nolink, d)
    {
      if path[i] == '/' {
        i := i + 1;
      } else {
        if KindOf(t, current) != Dir {
          return NotDirectory;
        }
        var e := FindEnd(path, i);
        var component := path[i..e];
        var islast := AllSlashes(path, e);
        if islast && parent {
          return FoundParent(current, component);
        }
        var next := WalkComponent(t, current, component, !islast || !nolink, d);
        if !next.Found? {
          return next;
        }
        current := next.node;
        i := e;
      }
    }
    return Found(current);
  }

  /** The part of the loop that handles one component. */
  method WalkComponent(t: Tree, current: nat, component: string, follow: bool, d: nat) returns (r: Result)
    requires MountsOk(t) && d <= MAX_LINK_DEPTH + 1
    ensures r == Walk(t, current, component, follow, d)
    decreases MAX_LINK_DEPTH + 2 - d, 0
  {
    var at := current;
    if component == ".." {
      var root := HighestInMount(t, t.base);
      if root == current {
        return Found(current);
      }
      at := LowestInMount(t, current);
    }
    r := LookupEntry(t, at, component);
    if r.Found? && KindOf(t, r.node) == Link && follow {
      var text := TextOf(t, r.node);
      var from := if text != [] && text[0] == '/' then t.home else at;
      r := VfsLookup(t, from, text, false, false, d + 1);
      NeverParent(t, from, text, false, d + 1);
    }
  }

  /** A lookup that was not asked for the parent does not return one. */
  lemma {:induction false} NeverParent(t: Tree, start: nat, path: string, nolink: bool, d: nat)
    requires MountsOk(t) && d <= MAX_LINK_DEPTH + 2
    ensures !Lookup(t, start, path, false, nolink, d).FoundParent?
  {
    if d <= MAX_LINK_DEPTH + 1 && path != [] && |path| <= PATHNAME_MAX {
      ResolveNeverParent(t, Highest(t, start), Components(path), nolink, d);
    }
  }

  lemma {:induction false} ResolveNeverParent(t: Tree, n: nat, cs: seq<string>, nolink: bool, d: nat)
    requires MountsOk(t) && d <= MAX_LINK_DEPTH + 1
    ensures !Resolve(t, n, cs, false, nolink, d).FoundParent?
    decreases |cs|
  {
    if cs != [] {
      var r := Walk(t, n, cs[0], |cs| > 1 || !nolink, d);
      if r.Found? { ResolveNeverParent(t, r.node, cs[1..], nolink, d); }
    }
  }

  method LookupEntry(t: Tree, n: nat, name: string) returns (r: Result)
    requires MountsOk(t)
    ensures r == Entry(t, n, name)
  {
    if n !in t.searchable {
      return NoAccess;
    }
    if (n, name) !in t.entry {
      return NoEntry;
    }
    var next := HighestInMount(t, t.entry[(n, name)]);
    return Found(next);
  }

  /** The length of a component, and what it means for the components that are left. */
  method FindEnd(path: string, i: nat) returns (e: nat)
    requires i < |path| && path[i] != '/'
    ensures i < e <= |path| && Components(path[i..]) == [path[i..e]] + Components(path[e..])
  {
    e := i;
    while e < |path| && path[e] != '/'
      invariant i <= e <= |path| && forall k :: i <= k < e ==> path[k] != '/'
    {
      e := e + 1;
    }
    WordEndUnique(path[i..], e - i);
    assert path[i..][..e - i] == path[i..e] && path[i..][e - i..] == path[e..];
  }

  /** Whether only slashes follow. */
  method AllSlashes(path: string, e: nat) returns (all: bool)
    requires e <= |path|
    ensures all <==> Components(path[e..]) == []
  {
    var j := e;
    while j < |path| && path[j] == '/'
      invariant e <= j <= |path| && forall k :: e <= k < j ==> path[k] == '/'
    {
      j := j + 1;
    }
    all := j == |path|;
    NoComponents(path[e..]);
    assert !all ==> path[e..][j - e] != '/';
  }
}
