/** pyinotify's tracking of renamed directories: the paths stored in the watches against a model
    of the real tree. */
module WatchPaths {
  import opened Text
  import opened PathText

  /** The handler's maps and the paths of the watches, by watch descriptor. */
  datatype Tracker = Tracker(cookies: map<nat, string>, moves: map<string, string>, paths: map<nat, string>)

  const UNKNOWN := "-unknown-path"

  predicate EndsWith(s: string, t: string) {
    |t| <= |s| && s[|s| - |t|..] == t
  }

  function Rebase(path: string, src: string, dst: string): string {
    if StartsWith(path, src) then Join(dst, path[|src|..]) else path
  }

  function RebaseAll(paths: map<nat, string>, src: string, dst: string): map<nat, string> {
    map w | w in paths :: Rebase(paths[w], src, dst)
  }

  function MovedFrom(t: Tracker, wd: nat, name: string, cookie: nat): Tracker
    requires wd in t.paths
  {
    t.(cookies := t.cookies[cookie := NormPath(Join(t.paths[wd], name))])
  }

  function MovedTo(t: Tracker, wd: nat, name: string, cookie: nat): Tracker
    requires wd in t.paths
  {
    if cookie in t.cookies then t.(moves := t.moves[t.cookies[cookie] := NormPath(Join(t.paths[wd], name))]) else t
  }

  /** Without a recorded destination the path is marked as no longer to be trusted. */
  function MoveSelf(t: Tracker, wd: nat): Tracker
    requires wd in t.paths
  {
    var src := t.paths[wd];
    if src in t.moves then
      t.(paths := RebaseAll(t.paths[wd := t.moves[src]], src + ['/'], t.moves[src]))
    else if EndsWith(src, UNKNOWN) then t
    else t.(paths := t.paths[wd := src + UNKNOWN])
  }

  /** _SysProcessEvent with the paths of its watch manager. */
  class SysProcessEvent {
    var mvCookie: map<nat, string>
    var mv: map<string, string>
    var paths: map<nat, string>

    ghost function State(): Tracker
      reads this
    {
      Tracker(mvCookie, mv, paths)
    }

    constructor (watches: map<nat, string>)
      ensures State() == Tracker(map[], map[], watches)
    {
      mvCookie, mv, paths := map[], map[], watches;
    }

    method ProcessMovedFrom(wd: nat, name: string, cookie: nat)
      requires wd in paths
      modifies this
      ensures State() == MovedFrom(old(State()), wd, name, cookie)
    {
      var srcPath := NormPath(Join(paths[wd], name));
      mvCookie := mvCookie[cookie := srcPath];
    }

    method ProcessMovedTo(wd: nat, name: string, cookie: nat)
      requires wd in paths
      modifies this
      ensures State() == MovedTo(old(State()), wd, name, cookie)
    {
      var dstPath := NormPath(Join(paths[wd], name));
      if cookie in mvCookie {
        mv := mv[mvCookie[cookie] := dstPath];
      }
    }

    method ProcessMoveSelf(wd: nat)
      requires wd in paths
      modifies this
      ensures State() == MoveSelf(old(State()), wd)
    {
      var src := paths[wd];
      if src in mv {
        var dst := mv[src];
        paths := paths[wd := dst];
        src := src + ['/'];
        ghost var before := paths;
        var todo := paths.Keys;
        while todo != {}
          invariant todo <= paths.Keys == before.Keys
          invariant forall w :: w in before ==>
                      paths[w] == if w in todo then before[w] else Rebase(before[w], src, dst)
          invariant mvCookie == old(mvCookie) && mv == old(mv)
          decreases |todo|
        {
          var w :| w in todo;
          if StartsWith(paths[w], src) {
            paths := paths[w := Join(dst, paths[w][|src|..])];
          }
          todo := todo - {w};
        }
        assert paths == RebaseAll(before, src, dst);
      } else if !EndsWith(src, UNKNOWN) {
        paths := paths[wd := src + UNKNOWN];
      }
    }
  }

  // ---- the tree ----

  /** Where the watched directories really are, by watch descriptor; without those that were moved to
      where nobody watches. */
  type Tree = map<nat, seq<string>>

  /** A rename of the directory watched as `wd` between two watched parents. */
  datatype Rename = Rename(wd: nat, fromWd: nat, name: string, toWd: nat, newName: string, cookie: nat)

  function Moved(cs: seq<string>, src: seq<string>, dst: seq<string>): seq<string> {
    if src <= cs then dst + cs[|src|..] else cs
  }

  function Source(tree: Tree, r: Rename): seq<string>
    requires r.fromWd in tree
  {
    tree[r.fromWd] + [r.name]
  }

  function Target(tree: Tree, r: Rename): seq<string>
    requires r.toWd in tree
  {
    tree[r.toWd] + [r.newName]
  }

  /** A directory does not move below itself. That no watched directory is at the target or below is an
      assumption: a rename may replace an empty directory. */
  predicate IsRename(tree: Tree, r: Rename) {
    && r.wd in tree && r.fromWd in tree && r.toWd in tree
    && IsName(r.name) && IsName(r.newName)
    && tree[r.wd] == Source(tree, r)
    && !(Source(tree, r) <= tree[r.toWd])
    && forall w :: w in tree ==> !(Target(tree, r) <= tree[w])
  }

  function Renamed(tree: Tree, r: Rename): Tree
    requires r.fromWd in tree && r.toWd in tree
  {
    map w | w in tree :: Moved(tree[w], Source(tree, r), Target(tree, r))
  }

  predicate IsTree(tree: Tree) {
    && (forall w :: w in tree ==> IsPath(tree[w]))
    && (forall w, x :: w in tree && x in tree && tree[w] == tree[x] ==> w == x)
  }

  /** The stored path of every watch in the tree is the text of the directory's real path. */
  predicate Tracks(t: Tracker, tree: Tree) {
    tree.Keys <= t.paths.Keys && forall w :: w in tree ==> t.paths[w] == Str(tree[w])
  }

  function Handle(t: Tracker, r: Rename): Tracker
    requires r.wd in t.paths && r.fromWd in t.paths && r.toWd in t.paths
  {
    MoveSelf(MovedTo(MovedFrom(t, r.fromWd, r.name, r.cookie), r.toWd, r.newName, r.cookie), r.wd)
  }

  /** The text of a path below a directory, behind the separator. */
  function Tail(rest: seq<string>): string
    requires rest != []
  {
    rest[0] + Flat(rest[1..])
  }

  lemma FlatBelow(a: seq<string>, rest: seq<string>)
    requires rest != []
    ensures Flat(a + rest) == Flat(a) + (['/'] + Tail(rest))
  {
    FlatAppend(a, rest);
    FlatIsTail(rest);
  }

  lemma FlatIsTail(rest: seq<string>)
    requires rest != []
    ensures Flat(rest) == ['/'] + Tail(rest)
  {
  }

  lemma BehindSlash(f: string, t: string)
    ensures (f + (['/'] + t))[|f| + 1..] == t
  {
  }

  lemma JoinText(a: string, t: string)
    requires a != "" && a[|a| - 1] != '/' && t != "" && t[0] != '/'
    ensures Join(a, t) == a + (['/'] + t)
  {
  }

  /** A path is rebased by what is behind the separator. */
  lemma RebaseText(f: string, t: string, d: string)
    requires d != "" && d[|d| - 1] != '/' && t != "" && t[0] != '/'
    ensures Rebase(f + (['/'] + t), f + ['/'], d) == d + (['/'] + t)
  {
    assert f + (['/'] + t) == f + ['/'] + t;
    BehindSlash(f, t);
    JoinText(d, t);
  }

  lemma TailIsName(rest: seq<string>)
    requires IsPath(rest) && rest != []
    ensures Tail(rest) != "" && Tail(rest)[0] != '/'
  {
    assert Tail(rest)[0] == rest[0][0];
  }

  lemma RebaseDescendant(cs: seq<string>, src: seq<string>, dst: seq<string>)
    requires IsPath(cs) && IsPath(src) && IsPath(dst) && src != [] && dst != [] && src < cs
    ensures Rebase(Str(cs), Str(src) + ['/'], Str(dst)) == Str(dst + cs[|src|..])
  {
    var rest := cs[|src|..];
    assert cs == src + rest;
    FlatBelow(src, rest);
    FlatBelow(dst, rest);
    TailIsName(rest);
    LastIsNoSlash(dst);
    RebaseText(Flat(src), Tail(rest), Flat(dst));
  }

  lemma RebaseNotBelow(cs: seq<string>, src: seq<string>, dst: string)
    requires IsPath(cs) && IsPath(src) && src != [] && !(src < cs)
    ensures Rebase(Str(cs), Str(src) + ['/'], dst) == Str(cs)
  {
    if cs == [] {
      assert |Str(src) + ['/']| > |Str(cs)|;
    } else {
      PrefixIffBelow(cs, src);
    }
  }

  /** A watch elsewhere: below the source its path is rebased, anywhere else left alone. */
  lemma RebaseOther(cs: seq<string>, src: seq<string>, dst: seq<string>)
    requires IsPath(cs) && IsPath(src) && IsPath(dst) && src != [] && dst != [] && cs != src
    ensures Rebase(Str(cs), Str(src) + ['/'], Str(dst)) == Str(Moved(cs, src, dst))
  {
    if src < cs {
      RebaseDescendant(cs, src, dst);
    } else {
      RebaseNotBelow(cs, src, Str(dst));
    }
  }

  /** The moved directory itself has its new path already, which is not below the old one. */
  lemma RebaseMoved(src: seq<string>, dst: seq<string>)
    requires IsPath(src) && IsPath(dst) && src != [] && dst != [] && !(src < dst)
    ensures Rebase(Str(dst), Str(src) + ['/'], Str(dst)) == Str(Moved(src, src, dst))
  {
    PrefixIffBelow(dst, src);
    assert dst + src[|src|..] == dst;
  }

  lemma PrefixOfSnoc(s: seq<string>, p: seq<string>, n: string)
    requires s < p + [n]
    ensures s <= p
  {
    assert s == (p + [n])[..|s|] == p[..|s|];
  }

  lemma TargetNotBelow(tree: Tree, r: Rename)
    requires IsRename(tree, r)
    ensures !(Source(tree, r) < Target(tree, r))
  {
    if Source(tree, r) < Target(tree, r) {
      PrefixOfSnoc(Source(tree, r), tree[r.toWd], r.newName);
    }
  }

  lemma HandleFindsTarget(t: Tracker, tree: Tree, r: Rename)
    requires IsTree(tree) && Tracks(t, tree) && IsRename(tree, r)
    ensures var s, d := Str(Source(tree, r)), Str(Target(tree, r));
            Handle(t, r).paths == RebaseAll(t.paths[r.wd := d], s + ['/'], d)
  {
    EntryPath(tree[r.fromWd], r.name);
    EntryPath(tree[r.toWd], r.newName);
  }

  lemma RebasedPath(tree: Tree, r: Rename, w: nat)
    requires IsTree(tree) && IsRename(tree, r) && w in tree
    ensures var s, d := Source(tree, r), Target(tree, r);
            Rebase(if w == r.wd then Str(d) else Str(tree[w]), Str(s) + ['/'], Str(d)) == Str(Moved(tree[w], s, d))
  {
    var s, d := Source(tree, r), Target(tree, r);
    assert IsPath(s) && IsPath(d);
    if w == r.wd {
      TargetNotBelow(tree, r);
      RebaseMoved(s, d);
    } else {
      RebaseOther(tree[w], s, d);
    }
  }

  /** One rename, reported as MOVED_FROM, MOVED_TO and MOVE_SELF: every watch follows its
      directory, descendants included, and no other watch changes. */
  lemma RenameTracked(t: Tracker, tree: Tree, r: Rename)
    requires IsTree(tree) && Tracks(t, tree) && IsRename(tree, r)
    ensures IsTree(Renamed(tree, r)) && Tracks(Handle(t, r), Renamed(tree, r))
  {
    HandleFindsTarget(t, tree, r);
    forall w | w in tree { RebasedPath(tree, r, w); }
    RenamedIsTree(tree, r);
    TracksAll(t, tree, r, Handle(t, r).paths);
  }

  lemma TracksAll(t: Tracker, tree: Tree, r: Rename, paths: map<nat, string>)
    requires Tracks(t, tree) && r.wd in tree && r.fromWd in tree && r.toWd in tree
    requires var s, d := Source(tree, r), Target(tree, r);
             && paths == RebaseAll(t.paths[r.wd := Str(d)], Str(s) + ['/'], Str(d))
             && forall w :: w in tree ==>
                  Rebase(if w == r.wd then Str(d) else Str(tree[w]), Str(s) + ['/'], Str(d)) == Str(Moved(tree[w], s, d))
    ensures Tracks(t.(paths := paths), Renamed(tree, r))
  {
  }

  lemma MovedInjective(tree: Tree, r: Rename, w: nat, x: nat)
    requires IsTree(tree) && IsRename(tree, r) && w in tree && x in tree
    requires Renamed(tree, r)[w] == Renamed(tree, r)[x]
    ensures w == x
  {
    var s, d := Source(tree, r), Target(tree, r);
    if s <= tree[w] && s <= tree[x] {
      assert (d + tree[w][|s|..])[|d|..] == tree[w][|s|..];
      assert (d + tree[x][|s|..])[|d|..] == tree[x][|s|..];
      assert tree[w] == s + tree[w][|s|..] && tree[x] == s + tree[x][|s|..];
    }
  }

  lemma MovedIsPath(cs: seq<string>, src: seq<string>, dst: seq<string>)
    requires IsPath(cs) && IsPath(dst)
    ensures IsPath(Moved(cs, src, dst))
  {
  }

  lemma RenamedIsTree(tree: Tree, r: Rename)
    requires IsTree(tree) && IsRename(tree, r)
    ensures IsTree(Renamed(tree, r))
  {
    var t := Renamed(tree, r);
    forall w | w in tree ensures IsPath(t[w]) {
      MovedIsPath(tree[w], Source(tree, r), Target(tree, r));
    }
    forall w, x | w in t && x in t && t[w] == t[x] ensures w == x {
      MovedInjective(tree, r, w, x);
    }
  }

  // ---- moves that are not recorded ----

  /** The tree when a directory and what is below it has left. */
  function Without(tree: Tree, wd: nat): Tree
    requires wd in tree
  {
    map w | w in tree && !(tree[wd] <= tree[w]) :: tree[w]
  }

  /** A directory moved to where nobody watches: whatever older moves the handler remembers, the other
      watches keep their true paths, and without such a memory the lost one is marked. */
  lemma LostTracked(t: Tracker, tree: Tree, wd: nat)
    requires IsTree(tree) && Tracks(t, tree) && wd in tree && tree[wd] != []
    ensures IsTree(Without(tree, wd)) && Tracks(MoveSelf(t, wd), Without(tree, wd))
    ensures t.paths[wd] !in t.moves ==>
              && EndsWith(MoveSelf(t, wd).paths[wd], UNKNOWN)
              && forall w :: w in t.paths && w != wd ==> w in MoveSelf(t, wd).paths && MoveSelf(t, wd).paths[w] == t.paths[w]
  {
    assert (t.paths[wd] + UNKNOWN)[|t.paths[wd]|..] == UNKNOWN;
    if t.paths[wd] in t.moves {
      forall w | w in Without(tree, wd)
        ensures Rebase(Str(tree[w]), Str(tree[wd]) + ['/'], t.moves[t.paths[wd]]) == Str(tree[w])
      {
        RebaseNotBelow(tree[w], tree[wd], t.moves[t.paths[wd]]);
      }
    }
  }

  /** A lost watch is marked once, however often it is reported. */
  lemma MarkedOnce(t: Tracker, wd: nat)
    requires wd in t.paths && t.paths[wd] !in t.moves && t.paths[wd] + UNKNOWN !in t.moves
    ensures var u := MoveSelf(t, wd);
            wd in u.paths && MoveSelf(u, wd) == u && u.paths[wd] in {t.paths[wd], t.paths[wd] + UNKNOWN}
  {
    assert (t.paths[wd] + UNKNOWN)[|t.paths[wd]|..] == UNKNOWN;
  }

  // ---- renames of directories that are not watched ----

  /** An entry of a watched directory, not watched itself, that leaves; directories watched below it go
      with it, and nobody is told. */
  predicate IsEntry(tree: Tree, wd: nat, name: string) {
    wd in tree && IsName(name) && forall w :: w in tree ==> tree[w] != tree[wd] + [name]
  }

  function WithoutEntry(tree: Tree, wd: nat, name: string): Tree
    requires wd in tree
  {
    map w | w in tree && !(tree[wd] + [name] <= tree[w]) :: tree[w]
  }

  /** An entry renamed between watched directories: it is not watched, and at the target and below there
      is no watched directory. */
  predicate IsEntryRename(tree: Tree, fromWd: nat, name: string, toWd: nat, newName: string) {
    && IsEntry(tree, fromWd, name) && toWd in tree && IsName(newName)
    && !(tree[fromWd] + [name] <= tree[toWd])
    && forall w :: w in tree ==> !(tree[toWd] + [newName] <= tree[w])
  }

  function EntryRenamed(tree: Tree, fromWd: nat, name: string, toWd: nat, newName: string): Tree
    requires fromWd in tree && toWd in tree
  {
    map w | w in tree :: Moved(tree[w], tree[fromWd] + [name], tree[toWd] + [newName])
  }

  /** Such a rename is reported as MOVED_FROM and MOVED_TO only. The stored paths are the true ones
      afterwards iff no directory below the renamed one is watched. */
  lemma EntryRenameIff(t: Tracker, tree: Tree, fromWd: nat, name: string, toWd: nat, newName: string, cookie: nat)
    requires IsTree(tree) && Tracks(t, tree) && IsEntryRename(tree, fromWd, name, toWd, newName)
    ensures Tracks(MovedTo(MovedFrom(t, fromWd, name, cookie), toWd, newName, cookie),
                   EntryRenamed(tree, fromWd, name, toWd, newName))
            <==> forall w :: w in tree ==> !(tree[fromWd] + [name] < tree[w])
  {
    var src, dst := tree[fromWd] + [name], tree[toWd] + [newName];
    assert MovedTo(MovedFrom(t, fromWd, name, cookie), toWd, newName, cookie).paths == t.paths;
    if w :| w in tree && src < tree[w] {
      EntryMovedAway(t, tree, src, dst, w);
    } else {
      NothingMoved(tree, src, dst);
    }
  }

  lemma EntryMovedAway(t: Tracker, tree: Tree, src: seq<string>, dst: seq<string>, w: nat)
    requires IsTree(tree) && Tracks(t, tree) && IsPath(dst) && w in tree && src < tree[w] && !(dst <= tree[w])
    ensures t.paths[w] != Str(Moved(tree[w], src, dst))
  {
    MovedAway(tree[w], src, dst);
  }

  lemma NothingMoved(tree: Tree, src: seq<string>, dst: seq<string>)
    requires forall w :: w in tree ==> !(src < tree[w]) && tree[w] != src
    ensures forall w :: w in tree ==> Moved(tree[w], src, dst) == tree[w]
  {
  }

  lemma MovedAway(cs: seq<string>, src: seq<string>, dst: seq<string>)
    requires IsPath(cs) && IsPath(dst) && src < cs && !(dst <= cs)
    ensures Str(Moved(cs, src, dst)) != Str(cs)
  {
    assert dst <= Moved(cs, src, dst);
    MovedIsPath(cs, src, dst);
    if Str(Moved(cs, src, dst)) == Str(cs) { StrInjective(Moved(cs, src, dst), cs); }
  }

  // ---- runs ----

  /** A recorded rename; a watched directory lost, its old parent being watched or not; an entry that is
      not watched, a file say, that leaves a watched directory; one that arrives in one. */
  datatype Event =
    | Recorded(r: Rename)
    | Lost(wd: nat)
    | LostFrom(wd: nat, fromWd: nat, name: string, cookie: nat)
    | EntryLeft(wd: nat, name: string, cookie: nat)
    | EntryArrived(wd: nat, name: string, cookie: nat)

  predicate IsEvent(tree: Tree, e: Event) {
    match e
    case Recorded(r) => IsRename(tree, r)
    case Lost(wd) => wd in tree && tree[wd] != []
    case LostFrom(wd, fromWd, name, _) => wd in tree && fromWd in tree && tree[wd] == tree[fromWd] + [name]
    case EntryLeft(wd, name, _) => IsEntry(tree, wd, name)
    case EntryArrived(wd, name, _) => IsEntry(tree, wd, name) && WithoutEntry(tree, wd, name) == tree
  }

  /** The directories whose watches can still be trusted. */
  function TreeAfter(tree: Tree, e: Event): Tree
    requires IsEvent(tree, e)
  {
    match e
    case Recorded(r) => Renamed(tree, r)
    case Lost(wd) => Without(tree, wd)
    case LostFrom(wd, _, _, _) => Without(tree, wd)
    case EntryLeft(wd, name, _) => WithoutEntry(tree, wd, name)
    case EntryArrived(_, _, _) => tree
  }

  function HandleEvent(t: Tracker, tree: Tree, e: Event): Tracker
    requires IsEvent(tree, e) && tree.Keys <= t.paths.Keys
  {
    match e
    case Recorded(r) => Handle(t, r)
    case Lost(wd) => MoveSelf(t, wd)
    case LostFrom(wd, fromWd, name, cookie) => MoveSelf(MovedFrom(t, fromWd, name, cookie), wd)
    case EntryLeft(wd, name, cookie) => MovedFrom(t, wd, name, cookie)
    case EntryArrived(wd, name, cookie) => MovedTo(t, wd, name, cookie)
  }

  lemma EventTracked(t: Tracker, tree: Tree, e: Event)
    requires IsTree(tree) && Tracks(t, tree) && IsEvent(tree, e)
    ensures IsTree(TreeAfter(tree, e)) && Tracks(HandleEvent(t, tree, e), TreeAfter(tree, e))
  {
    match e
    case Recorded(r) => RenameTracked(t, tree, r);
    case Lost(wd) => LostTracked(t, tree, wd);
    case LostFrom(wd, fromWd, name, cookie) => LostTracked(MovedFrom(t, fromWd, name, cookie), tree, wd);
    case _ =>
  }

  predicate IsRun(tree: Tree, es: seq<Event>)
    decreases |es|
  {
    es == [] || (IsEvent(tree, es[0]) && IsRun(TreeAfter(tree, es[0]), es[1..]))
  }

  function FinalTree(tree: Tree, es: seq<Event>): Tree
    requires IsRun(tree, es)
    decreases |es|
  {
    if es == [] then tree else FinalTree(TreeAfter(tree, es[0]), es[1..])
  }

  ghost function HandleAll(t: Tracker, tree: Tree, es: seq<Event>): Tracker
    requires IsTree(tree) && Tracks(t, tree) && IsRun(tree, es)
    decreases |es|
  {
    if es == [] then t
    else
      EventTracked(t, tree, es[0]);
      HandleAll(HandleEvent(t, tree, es[0]), TreeAfter(tree, es[0]), es[1..])
  }

  /** After any run of these, whatever is left in the handler's maps, the stored path of every watch
      that was not lost, or taken along by an entry that left, is the real one, and distinct ones have
      distinct paths. */
  lemma {:induction false} EveryRunTracked(t: Tracker, tree: Tree, es: seq<Event>)
    requires IsTree(tree) && Tracks(t, tree) && IsRun(tree, es)
    ensures var u, final := HandleAll(t, tree, es), FinalTree(tree, es);
            && IsTree(final) && Tracks(u, final)
            && forall w, x :: w in final && x in final && u.paths[w] == u.paths[x] ==> w == x
    decreases |es|
  {
    if es == [] {
      forall w, x | w in tree && x in tree && t.paths[w] == t.paths[x] ensures w == x {
        StrInjective(tree[w], tree[x]);
      }
    } else {
      EventTracked(t, tree, es[0]);
      EveryRunTracked(HandleEvent(t, tree, es[0]), TreeAfter(tree, es[0]), es[1..]);
    }
  }
}
