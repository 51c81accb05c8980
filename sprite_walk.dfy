/**
 * The depth-first walk over a darkFunction Editor sprite tree: every `dir`
 * child is walked (in document order) before the node's own `spr` children
 * (in document order), and each sprite yields a frame record keyed by the
 * name of the node that directly contains it, an underscore, and the
 * sprite's name.
 */
module SpriteWalk {
  import opened Paths

  /** A `spr` element, its rectangle attributes already read as integers. */
  datatype Spr = Spr(name: string, x: int, y: int, w: int, h: int)

  /** An element seen through its `name` attribute and its `dir` and `spr` children. */
  datatype Node = Node(name: string, dirs: seq<Node>, sprs: seq<Spr>)

  datatype Rect = Rect(x: int, y: int, w: int, h: int)
  datatype Size = Size(w: int, h: int)

  /** One frame record of the sprite-atlas output. */
  datatype Frame = Frame(frame: Rect, rotated: bool, trimmed: bool, spriteSourceSize: Rect, sourceSize: Size)

  /**
   * One sprite found by the walk: the accumulated path of its diagnostic
   * line, and the (key, frame) pair it yields.
   */
  datatype Visit = Visit(path: string, key: string, frame: Frame)

  /** A frame that is neither rotated nor trimmed and whose source is its own rectangle. */
  predicate Untrimmed(f: Frame)
  {
    && !f.rotated
    && !f.trimmed
    && f.spriteSourceSize == f.frame
    && f.sourceSize == Size(f.frame.w, f.frame.h)
  }

  /** The frame record of a sprite. */
  function SpriteFrame(s: Spr): (f: Frame)
    ensures Untrimmed(f)
    ensures f.frame == Rect(s.x, s.y, s.w, s.h)
  {
    var r := Rect(s.x, s.y, s.w, s.h);
    Frame(r, false, false, r, Size(s.w, s.h))
  }

  /** The output key of a sprite `name` directly inside a node called `parent`. */
  function FrameName(parent: string, name: string): (key: string)
    ensures |key| == |parent| + 1 + |name|
    ensures key[..|parent|] == parent && key[|parent|] == '_' && key[|parent| + 1..] == name
  {
    parent + "_" + name
  }

  /** The visits of a node's own sprites, in document order. */
  function SpriteVisits(parent: string, sprs: seq<Spr>, path: string): seq<Visit>
  {
    seq(|sprs|, j requires 0 <= j < |sprs| =>
      Visit(ChildPath(path, sprs[j].name), FrameName(parent, sprs[j].name), SpriteFrame(sprs[j])))
  }

  /** Walk `node`, reached by the accumulated `path`: its dirs first, then its sprites. */
  function WalkDir(node: Node, path: string): seq<Visit>
    decreases node, 1
  {
    WalkDirs(node.dirs, path) + SpriteVisits(node.name, node.sprs, path)
  }

  /** Walk each of `dirs` in document order, each below `path`. */
  function WalkDirs(dirs: seq<Node>, path: string): seq<Visit>
    decreases dirs, 0
  {
    if dirs == [] then []
    else WalkDir(dirs[0], ChildPath(path, dirs[0].name)) + WalkDirs(dirs[1..], path)
  }

  /** The (key, frame) pairs the walk yields. */
  function Yields(vs: seq<Visit>): (ps: seq<(string, Frame)>)
    ensures |ps| == |vs|
    ensures forall i :: 0 <= i < |vs| ==> ps[i] == (vs[i].key, vs[i].frame)
  {
    seq(|vs|, i requires 0 <= i < |vs| => (vs[i].key, vs[i].frame))
  }

  /** The number of `spr` leaves in the subtree, counted over all `dir` descendants. */
  function SpriteCount(node: Node): nat
    decreases node, 1
  {
    |node.sprs| + DirsSpriteCount(node.dirs)
  }

  function DirsSpriteCount(dirs: seq<Node>): nat
    decreases dirs, 0
  {
    if dirs == [] then 0 else SpriteCount(dirs[0]) + DirsSpriteCount(dirs[1..])
  }

  /** The walk yields exactly one pair per sprite leaf of the subtree. */
  lemma {:induction false} WalkCount(node: Node, path: string)
    ensures |WalkDir(node, path)| == SpriteCount(node)
    decreases node, 1
  {
    WalkDirsCount(node.dirs, path);
  }

  lemma {:induction false} WalkDirsCount(dirs: seq<Node>, path: string)
    ensures |WalkDirs(dirs, path)| == DirsSpriteCount(dirs)
    decreases dirs, 0
  {
    if dirs != [] {
      WalkCount(dirs[0], ChildPath(path, dirs[0].name));
      WalkDirsCount(dirs[1..], path);
    }
  }

  /**
   * All visits from the dir children come first; the node's own sprites come
   * last, one per `spr` child in document order, keyed by the node's name.
   */
  lemma DirsBeforeOwnSprites(node: Node, path: string)
    ensures var w, off := WalkDir(node, path), DirsSpriteCount(node.dirs);
      && |w| == off + |node.sprs|
      && w[..off] == WalkDirs(node.dirs, path)
      && forall j :: 0 <= j < |node.sprs| ==>
           w[off + j] == Visit(ChildPath(path, node.sprs[j].name),
                               FrameName(node.name, node.sprs[j].name),
                               SpriteFrame(node.sprs[j]))
  {
    WalkDirsCount(node.dirs, path);
  }

  /** Walking two lists of dirs one after the other is walking their concatenation. */
  lemma {:induction false} WalkDirsAppend(a: seq<Node>, b: seq<Node>, path: string)
    ensures WalkDirs(a + b, path) == WalkDirs(a, path) + WalkDirs(b, path)
  {
    if a == [] {
      assert a + b == b;
    } else {
      var c := a + b;
      assert c[0] == a[0] && c[1..] == a[1..] + b;
      WalkDirsAppend(a[1..], b, path);
    }
  }

  /**
   * The visits of the dir child `dirs[i]` form one contiguous block, after
   * the visits of every dir before it and before those of every dir after
   * it: dirs are walked in document order.
   */
  lemma DirBlock(dirs: seq<Node>, path: string, i: nat)
    requires i < |dirs|
    ensures WalkDirs(dirs, path)
         == WalkDirs(dirs[..i], path)
          + WalkDir(dirs[i], ChildPath(path, dirs[i].name))
          + WalkDirs(dirs[i + 1..], path)
  {
    assert dirs == dirs[..i] + ([dirs[i]] + dirs[i + 1..]);
    WalkDirsAppend(dirs[..i], [dirs[i]] + dirs[i + 1..], path);
    WalkDirsAppend([dirs[i]], dirs[i + 1..], path);
    assert WalkDirs([dirs[i]], path) == WalkDir(dirs[i], ChildPath(path, dirs[i].name)) by {
      assert [dirs[i]][1..] == [];
    }
  }

  // ---------------------------------------------------------------------
  // The sprite leaves of a tree, independent of any path, and how the walk
  // relates to them.

  /**
   * A sprite leaf: the names of the dirs passed on the way down to it (the
   * starting node excluded), the name of the node directly containing it,
   * and the sprite.
   */
  datatype Leaf = Leaf(route: seq<string>, parent: string, spr: Spr)

  /** The sprite leaves of `node`, in walk order. */
  function Leaves(node: Node): seq<Leaf>
    decreases node, 1
  {
    DirsLeaves(node.dirs) + OwnLeaves(node.name, node.sprs)
  }

  function DirsLeaves(dirs: seq<Node>): seq<Leaf>
    decreases dirs, 0
  {
    if dirs == [] then [] else Below(dirs[0].name, Leaves(dirs[0])) + DirsLeaves(dirs[1..])
  }

  function OwnLeaves(parent: string, sprs: seq<Spr>): seq<Leaf>
  {
    seq(|sprs|, j requires 0 <= j < |sprs| => Leaf([], parent, sprs[j]))
  }

  /** The leaves `ls` of a dir called `dir`, seen from that dir's parent. */
  function Below(dir: string, ls: seq<Leaf>): seq<Leaf>
  {
    seq(|ls|, i requires 0 <= i < |ls| => ls[i].(route := [dir] + ls[i].route))
  }

  /** The output key of a leaf. */
  function LeafKey(l: Leaf): string
  {
    FrameName(l.parent, l.spr.name)
  }

  /** What the walk from `path` reports for a leaf. */
  function LeafVisit(path: string, l: Leaf): Visit
  {
    Visit(DescendPath(path, l.route + [l.spr.name]), LeafKey(l), SpriteFrame(l.spr))
  }

  /** The (key, frame) pairs of the leaves `ls`. */
  function LeafPairs(ls: seq<Leaf>): (ps: seq<(string, Frame)>)
  {
    seq(|ls|, i requires 0 <= i < |ls| => (LeafKey(ls[i]), SpriteFrame(ls[i].spr)))
  }

  ghost predicate Matches(vs: seq<Visit>, path: string, ls: seq<Leaf>)
  {
    |vs| == |ls| && forall i :: 0 <= i < |vs| ==> vs[i] == LeafVisit(path, ls[i])
  }

  lemma MatchesConcat(vs: seq<Visit>, ws: seq<Visit>, path: string, ls: seq<Leaf>, ms: seq<Leaf>)
    requires Matches(vs, path, ls) && Matches(ws, path, ms)
    ensures Matches(vs + ws, path, ls + ms)
  {
    forall i | 0 <= i < |vs + ws| ensures (vs + ws)[i] == LeafVisit(path, (ls + ms)[i]) {
      if i >= |vs| {
        assert ws[i - |vs|] == LeafVisit(path, ms[i - |ls|]);
      }
    }
  }

  lemma MatchesBelow(vs: seq<Visit>, path: string, dir: string, ls: seq<Leaf>)
    requires Matches(vs, ChildPath(path, dir), ls)
    ensures Matches(vs, path, Below(dir, ls))
  {
    forall i | 0 <= i < |vs| ensures vs[i] == LeafVisit(path, Below(dir, ls)[i]) {
      var l := ls[i];
      assert ([dir] + l.route + [l.spr.name])[1..] == l.route + [l.spr.name];
    }
  }

  lemma MatchesOwn(node: Node, path: string)
    ensures Matches(SpriteVisits(node.name, node.sprs, path), path, OwnLeaves(node.name, node.sprs))
  {
    forall j | 0 <= j < |node.sprs|
      ensures SpriteVisits(node.name, node.sprs, path)[j]
              == LeafVisit(path, OwnLeaves(node.name, node.sprs)[j])
    {
      var name := node.sprs[j].name;
      assert ([] + [name])[1..] == [];
      assert DescendPath(path, [] + [name]) == ChildPath(path, name);
    }
  }

  /**
   * The walk reports the leaves of the tree in order: each visit's path is
   * the starting path descended through the leaf's route and name, its key
   * is the containing node's name, "_" and the sprite's name, and its frame
   * is the sprite's record.
   */
  lemma {:induction false} WalkMatchesLeaves(node: Node, path: string)
    ensures Matches(WalkDir(node, path), path, Leaves(node))
    decreases node, 1
  {
    WalkDirsMatchLeaves(node.dirs, path);
    MatchesOwn(node, path);
    MatchesConcat(WalkDirs(node.dirs, path), SpriteVisits(node.name, node.sprs, path), path,
                  DirsLeaves(node.dirs), OwnLeaves(node.name, node.sprs));
  }

  lemma {:induction false} WalkDirsMatchLeaves(dirs: seq<Node>, path: string)
    ensures Matches(WalkDirs(dirs, path), path, DirsLeaves(dirs))
    decreases dirs, 0
  {
    if dirs != [] {
      var d := dirs[0];
      var sub := ChildPath(path, d.name);
      WalkMatchesLeaves(d, sub);
      MatchesBelow(WalkDir(d, sub), path, d.name, Leaves(d));
      WalkDirsMatchLeaves(dirs[1..], path);
      MatchesConcat(WalkDir(d, sub), WalkDirs(dirs[1..], path), path,
                    Below(d.name, Leaves(d)), DirsLeaves(dirs[1..]));
    }
  }

  /**
   * A leaf's parent is the last dir on its route, or the starting node when
   * the route is empty: the key uses only the immediately containing node.
   */
  lemma {:induction false} ParentIsLastOnRoute(node: Node)
    ensures forall l :: l in Leaves(node) ==>
      if l.route == [] then l.parent == node.name else l.parent == l.route[|l.route| - 1]
    decreases node, 1
  {
    DirsParentIsLastOnRoute(node.dirs);
  }

  lemma {:induction false} DirsParentIsLastOnRoute(dirs: seq<Node>)
    ensures forall l :: l in DirsLeaves(dirs) ==> l.route != [] && l.parent == l.route[|l.route| - 1]
    decreases dirs, 0
  {
    if dirs != [] {
      ParentIsLastOnRoute(dirs[0]);
      DirsParentIsLastOnRoute(dirs[1..]);
      var ls := Leaves(dirs[0]);
      forall l | l in Below(dirs[0].name, ls)
        ensures l.route != [] && l.parent == l.route[|l.route| - 1]
      {
        var i :| 0 <= i < |ls| && l == Below(dirs[0].name, ls)[i];
        assert ls[i] in ls;
      }
    }
  }

  /**
   * The yielded pairs are those of the leaves: one per sprite, keyed by its
   * containing node's name and its own name, whatever the accumulated path.
   */
  lemma YieldsAreLeafPairs(node: Node, path: string)
    ensures Yields(WalkDir(node, path)) == LeafPairs(Leaves(node))
  {
    WalkMatchesLeaves(node, path);
  }

  /** The yielded pairs do not depend on the accumulated path. */
  lemma YieldsIgnorePath(node: Node, path1: string, path2: string)
    ensures Yields(WalkDir(node, path1)) == Yields(WalkDir(node, path2))
  {
    YieldsAreLeafPairs(node, path1);
    YieldsAreLeafPairs(node, path2);
  }

  /** Every record the walk yields is untrimmed, unrotated and sized by its own rectangle. */
  lemma AllUntrimmed(node: Node, path: string)
    ensures forall v :: v in WalkDir(node, path) ==> Untrimmed(v.frame)
  {
    WalkMatchesLeaves(node, path);
  }

  /**
   * From the synthetic root, a sprite's path is "/" followed by its route
   * and name joined with "/", when the first of those names is not empty.
   */
  lemma RootVisitPath(root: Node, i: nat)
    requires i < |Leaves(root)|
    requires var names := Leaves(root)[i].route + [Leaves(root)[i].spr.name]; names[0] != ""
    ensures i < |WalkDir(root, Root)|
    ensures WalkDir(root, Root)[i].path == "/" + Join(Leaves(root)[i].route + [Leaves(root)[i].spr.name])
  {
    WalkMatchesLeaves(root, Root);
    RootPath(Leaves(root)[i].route + [Leaves(root)[i].spr.name]);
  }

  /** If no name in the tree starts with a slash, no sprite's path starts with "//". */
  lemma RootVisitSingleSlash(root: Node, i: nat)
    requires i < |Leaves(root)|
    requires var names := Leaves(root)[i].route + [Leaves(root)[i].spr.name];
      forall k :: 0 <= k < |names| ==> names[k] == "" || names[k][0] != '/'
    ensures i < |WalkDir(root, Root)|
    ensures SingleLeadingSlash(WalkDir(root, Root)[i].path)
  {
    WalkMatchesLeaves(root, Root);
    NoDoubleLeadingSlash(Root, Leaves(root)[i].route + [Leaves(root)[i].spr.name]);
  }
}
