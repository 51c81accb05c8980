/**
 * Conversion of a darkFunction Editor sprite sheet into the sprite-atlas
 * document: the frames of the sheet's sprite tree, filled into an ordered
 * dictionary, inside a fixed metadata envelope.
 */
module DfeToTp {
  import opened Paths
  import opened SpriteWalk
  import opened OrderedDict

  /**
   * The sheet's root element: its `name` attribute (the image) and the
   * children of its first `definitions` child, or None when it has none.
   */
  datatype Sheet = Sheet(name: string, definitions: Option<seq<Node>>)

  datatype Option<T> = None | Some(value: T)

  /**
   * The two ways a sheet without a sprite tree fails: there is no
   * `definitions` child, or it has no child element to walk.
   */
  datatype ParseError = NoDefinitions | EmptyDefinitions

  datatype Result<T> = Success(value: T) | Failure(error: ParseError)

  /** The frames of the output, keyed by frame name. */
  type Frames = OrderedMap<string, Frame>

  const App: string := "https://github.com/adamlwgriffiths/dfe_to_tp_pixi"
  const Scale: string := "1"

  /** The `meta` object; it has no `size` entry. */
  datatype Meta = Meta(app: string, image: string, scale: string)

  datatype Document = Document(frames: Frames, meta: Meta)

  /** The pairs the walk of `root` yields, starting from the synthetic root path. */
  function TreeYields(root: Node): seq<(string, Frame)>
  {
    Yields(WalkDir(root, Root))
  }

  /** The frames of the sprite tree `root`. */
  function TreeFrames(root: Node): Frames
  {
    Assigned(TreeYields(root))
  }

  /**
   * The frames of a sheet: the yields of the walk of the first child of
   * `definitions`, assigned one after the other to an empty ordered
   * dictionary.
   */
  method ParseSprites(sheet: Sheet) returns (r: Result<Frames>)
    ensures sheet.definitions.None? ==> r == Failure(NoDefinitions)
    ensures sheet.definitions == Some([]) ==> r == Failure(EmptyDefinitions)
    ensures sheet.definitions.Some? && sheet.definitions.value != [] ==>
      r == Success(TreeFrames(sheet.definitions.value[0]))
  {
    if sheet.definitions.None? {
      return Failure(NoDefinitions);
    }
    var children := sheet.definitions.value;
    if children == [] {
      return Failure(EmptyDefinitions);
    }
    var yielded := TreeYields(children[0]);
    var order: seq<string> := [];
    var entries: map<string, Frame> := map[];
    var i := 0;
    while i < |yielded|
      invariant 0 <= i <= |yielded|
      invariant order == InsertionOrder(KeysOf(yielded[..i]))
      invariant entries == LastWins(yielded[..i])
      invariant forall k :: k in order <==> k in entries
    {
      var (name, frame) := yielded[i];
      assert yielded[..i + 1][..i] == yielded[..i];
      assert KeysOf(yielded[..i + 1])[..i] == KeysOf(yielded[..i]);
      if name !in entries {
        order := order + [name];
      }
      entries := entries[name := frame];
      i := i + 1;
    }
    assert yielded[..i] == yielded;
    return Success(OrderedMap(order, entries));
  }

  /** The output document of a sheet: its frames in the fixed metadata envelope. */
  method Parse(sheet: Sheet) returns (r: Result<Document>)
    ensures sheet.definitions.None? ==> r == Failure(NoDefinitions)
    ensures sheet.definitions == Some([]) ==> r == Failure(EmptyDefinitions)
    ensures sheet.definitions.Some? && sheet.definitions.value != [] ==>
      && r.Success?
      && r.value.frames == TreeFrames(sheet.definitions.value[0])
      && r.value.meta.app == App
      && r.value.meta.image == sheet.name
      && r.value.meta.scale == "1"
  {
    var frames := ParseSprites(sheet);
    if frames.Failure? {
      return Failure(frames.error);
    }
    r := Success(Document(frames.value, Meta(App, sheet.name, Scale)));
  }

  // ---------------------------------------------------------------------
  // What the frames of a sprite tree are.

  /** The output keys of the leaves `ls`, in order. */
  function LeafKeys(ls: seq<Leaf>): (ks: seq<string>)
    ensures ks == KeysOf(LeafPairs(ls))
  {
    seq(|ls|, i requires 0 <= i < |ls| => LeafKey(ls[i]))
  }

  /** The walk of a tree yields the pairs of its leaves, one per sprite. */
  lemma TreeYieldsAreLeafPairs(root: Node)
    ensures TreeYields(root) == LeafPairs(Leaves(root))
    ensures |Leaves(root)| == SpriteCount(root)
  {
    YieldsAreLeafPairs(root, Root);
    WalkCount(root, Root);
  }

  /**
   * The frames of a tree hold exactly the keys `parent_name` of its sprite
   * leaves, once each, in order of the first sprite with that key, and never
   * more frames than there are sprites; exactly as many when no two sprites
   * share a key.
   */
  lemma TreeFramesKeys(root: Node)
    ensures var frames, ks := TreeFrames(root), LeafKeys(Leaves(root));
      && |ks| == SpriteCount(root)
      && (forall k :: k in frames.entries <==> k in ks)
      && (forall k :: k in frames.order <==> k in frames.entries)
      && Distinct(frames.order)
      && ByFirstOccurrence(ks, frames.order)
      && |frames.order| <= SpriteCount(root)
      && (|frames.order| == SpriteCount(root) <==> Distinct(ks))
  {
    TreeYieldsAreLeafPairs(root);
    AssignedSemantics(TreeYields(root));
    InsertionOrderLength(KeysOf(TreeYields(root)));
    assert LeafKeys(Leaves(root)) == KeysOf(TreeYields(root));
  }

  /** Each key holds the record of the last sprite, in walk order, with that key. */
  lemma TreeFramesValues(root: Node)
    ensures var frames, ls := TreeFrames(root), Leaves(root);
      forall i :: IsLastOccurrence(LeafKeys(ls), i) ==>
        LeafKey(ls[i]) in frames.entries && frames.entries[LeafKey(ls[i])] == SpriteFrame(ls[i].spr)
  {
    var ys, ls := TreeYields(root), Leaves(root);
    TreeYieldsAreLeafPairs(root);
    assert LeafKeys(ls) == KeysOf(ys);
    forall i | IsLastOccurrence(LeafKeys(ls), i)
      ensures LeafKey(ls[i]) in LastWins(ys) && LastWins(ys)[LeafKey(ls[i])] == SpriteFrame(ls[i].spr)
    {
      LastWinsValue(ys, i);
      assert ys[i] == (LeafKey(ls[i]), SpriteFrame(ls[i].spr));
    }
  }

  /** Every frame of a tree is unrotated, untrimmed and sourced from its own rectangle. */
  lemma TreeFramesUntrimmed(root: Node)
    ensures var frames := TreeFrames(root);
      forall k :: k in frames.entries ==> Untrimmed(frames.entries[k])
  {
    var ys := TreeYields(root);
    var frames := TreeFrames(root);
    TreeYieldsAreLeafPairs(root);
    AssignedSemantics(ys);
    forall k | k in frames.entries ensures Untrimmed(frames.entries[k]) {
      var i := LastIndexOf(KeysOf(ys), k);
      assert frames.entries[ys[i].0] == ys[i].1;
    }
  }

  /** The last position of `k` in `ks`. */
  ghost function LastIndexOf(ks: seq<string>, k: string): (i: nat)
    requires k in ks
    ensures IsLastOccurrence(ks, i) && ks[i] == k
  {
    if ks[|ks| - 1] == k then |ks| - 1
    else
      assert k in ks[..|ks| - 1] by {
        assert ks == ks[..|ks| - 1] + [ks[|ks| - 1]];
      }
      var j := LastIndexOf(ks[..|ks| - 1], k);
      assert ks[..|ks| - 1][j] == ks[j];
      j
  }

  /**
   * Two sprites with the same key collide: whatever their full paths, the
   * output has fewer frames than the tree has sprites. The key is the same
   * when both the containing nodes' names and the sprites' names agree, but
   * also for different splits around "_" (a dir "a_b" holding "c" and a dir
   * "a" holding "b_c").
   */
  lemma SameNamesCollide(root: Node, i: nat, j: nat)
    requires i < j < |Leaves(root)|
    requires LeafKey(Leaves(root)[i]) == LeafKey(Leaves(root)[j])
    ensures |TreeFrames(root).order| < SpriteCount(root)
  {
    TreeYieldsAreLeafPairs(root);
    CollisionShrinks(TreeYields(root), i, j);
  }

  /** The walk of a childless dir holding the sprites `sprs`. */
  lemma LeafDirWalk(name: string, sprs: seq<Spr>, path: string)
    ensures WalkDir(Node(name, [], sprs), path) == SpriteVisits(name, sprs, path)
  {
  }

  /**
   * Two dirs called "walk", each holding a sprite "a": one frame "walk_a"
   * remains, holding the rectangle of the sprite walked last.
   */
  lemma SameNamedDirsExample()
    ensures var a1, a2 := Spr("a", 0, 0, 10, 10), Spr("a", 10, 0, 10, 10);
      var root := Node("/", [Node("walk", [], [a1]), Node("walk", [], [a2])], []);
      && SpriteCount(root) == 2
      && TreeFrames(root).order == ["walk_a"]
      && TreeFrames(root).entries == map["walk_a" := SpriteFrame(a2)]
  {
    var a1, a2 := Spr("a", 0, 0, 10, 10), Spr("a", 10, 0, 10, 10);
    var d1, d2 := Node("walk", [], [a1]), Node("walk", [], [a2]);
    var root := Node("/", [d1, d2], []);
    var sub := ChildPath(Root, "walk");
    var v1 := Visit(ChildPath(sub, "a"), "walk_a", SpriteFrame(a1));
    var v2 := Visit(ChildPath(sub, "a"), "walk_a", SpriteFrame(a2));
    assert WalkDir(root, Root) == [v1, v2] by {
      LeafDirWalk("walk", [a1], sub);
      LeafDirWalk("walk", [a2], sub);
      assert FrameName("walk", "a") == "walk_a";
      assert WalkDir(d1, sub) == [v1];
      assert WalkDir(d2, sub) == [v2];
      assert [d1, d2][1..] == [d2] && [d2][1..] == [];
      assert WalkDirs([d2], Root) == [v2];
      assert WalkDirs([d1, d2], Root) == [v1, v2];
    }
    assert SpriteCount(root) == 2 by {
      WalkCount(root, Root);
    }
    var ys := TreeYields(root);
    assert ys == [("walk_a", SpriteFrame(a1)), ("walk_a", SpriteFrame(a2))];
    var ks := KeysOf(ys);
    assert ks == ["walk_a", "walk_a"];
    assert InsertionOrder(ks) == ["walk_a"] by {
      assert ks[..1] == ["walk_a"] && ks[..1][..0] == [];
      assert InsertionOrder(ks[..1]) == ["walk_a"];
    }
    assert LastWins(ys) == map["walk_a" := SpriteFrame(a2)] by {
      assert ys[..1] == [("walk_a", SpriteFrame(a1))] && ys[..1][..0] == [];
      assert LastWins(ys[..1]) == map["walk_a" := SpriteFrame(a1)];
    }
  }

  /**
   * A dir "walk" holding one sprite "a" at (0, 0, 10, 10) gives exactly the
   * frame "walk_a", unrotated and untrimmed, sourced from its own rectangle.
   */
  lemma SingleSpriteExample()
    ensures var root := Node("/", [Node("walk", [], [Spr("a", 0, 0, 10, 10)])], []);
      TreeFrames(root) == OrderedMap(["walk_a"],
        map["walk_a" := Frame(Rect(0, 0, 10, 10), false, false, Rect(0, 0, 10, 10), Size(10, 10))])
  {
    var a := Spr("a", 0, 0, 10, 10);
    var d := Node("walk", [], [a]);
    var root := Node("/", [d], []);
    var sub := ChildPath(Root, "walk");
    LeafDirWalk("walk", [a], sub);
    assert FrameName("walk", "a") == "walk_a";
    var v := Visit(ChildPath(sub, "a"), "walk_a", SpriteFrame(a));
    assert WalkDir(d, sub) == [v];
    assert [d][1..] == [];
    assert WalkDirs([d], Root) == [v];
    assert WalkDir(root, Root) == [v];
    var ys := TreeYields(root);
    assert ys == [("walk_a", SpriteFrame(a))];
    assert KeysOf(ys) == ["walk_a"] && KeysOf(ys)[..0] == [];
    assert ys[..0] == [];
  }
}
