# dfe_to_tp sprite-sheet converter, modelled in Dafny

This project models the sprite-sheet half of `dfe_to_tp`. That half converts
a darkFunction Editor `.sprite` sheet into the frame map of a
TexturePacker-style sprite-atlas JSON document. Its parts are:

- **The sprite tree.** `SpriteWalk.Node` is an element: its `name`
  attribute, its `dir` children and its `spr` children, each kept in
  document order. `SpriteWalk.Spr` is a sprite leaf whose `x`, `y`, `w`, `h`
  attributes are already read as integers.
- **The walk** (`walk_dir`). `SpriteWalk.WalkDir` and `SpriteWalk.WalkDirs`
  are a pure mutual recursion. They visit every `dir` child before the
  node's own `spr` children. Each sprite yields a pair: the key
  `<containing node's name>_<sprite name>` and an untrimmed frame record.
  Each `Visit` also carries the accumulated path that `walk_dir` prints at
  dfe_to_tp.py:25.
- **The path.** `Paths.ChildPath` and `Paths.DescendPath` build the
  accumulated path: parent path, `/`, name. Below the synthetic root `/`,
  the first character is dropped.
- **The reference enumeration.** `SpriteWalk.Leaves` lists the sprites of a
  tree. Each comes with the route of dir names that leads to it and the name
  of the node that directly contains it. `WalkMatchesLeaves` proves that the
  walk reports exactly these leaves, in this order.
- **The ordered dictionary** (`frames[name] = frame`). `OrderedDict` defines
  the key order (`InsertionOrder`) and the contents (`LastWins`) left by a
  sequence of assignments, and proves what they mean. `DfeToTp.ParseSprites`
  is the loop itself. Its invariants tie the local key order and map to
  those functions.
- **The envelope** (`parse`). `DfeToTp.Parse` wraps the frames in `meta`.
  `app` is the fixed URL, `image` is the sheet's `name` and `scale` is `"1"`.
  There is no `size` entry.

The key uses only the name of the node that directly contains the sprite.
The accumulated path is never part of it. So two dirs with the same name
that hold sprites with the same name produce one frame, not two. Keys also
collide across different splits around "_": a dir "a_b" holding "c" and a
dir "a" holding "b_c" both give "a_b_c". `DfeToTp.SameNamesCollide` proves
that any two sprites with the same key leave fewer frames than sprites, and
`DfeToTp.SameNamedDirsExample` shows one case. The walk's yields do not
depend on the path at all (`SpriteWalk.YieldsIgnorePath`).

Three facts about the code that the model keeps:

- the frames of the sheet conversion are a name-keyed ordered dictionary;
- the key is `parent_name` and need not be unique;
- rectangle values are not checked to be non-negative.

## Model

| member | source | states |
|---|---|---|
| `Paths.ChildPath` | dfe_to_tp.py:12-14 | the path of a dir or sprite below its parent's path, with the leading character dropped below "/"; `ChildPathShape` and `RootPath` state what it is |
| `Paths.ChildPathShape` | dfe_to_tp.py:12-14 | a child path is parent path, "/", name; below the root "/" it is "/" followed by the name |
| `Paths.DescendBelow` | dfe_to_tp.py:12-15 | below any path other than "/" and "", descending through names appends "/" and the names joined with "/" |
| `Paths.RootPath` | dfe_to_tp.py:10-24 | from the root, the accumulated path is "/" followed by the names joined with "/", provided the first name is non-empty |
| `Paths.NoDoubleLeadingSlash` | dfe_to_tp.py:12-24 | if no name starts with "/", an accumulated path starts with exactly one slash, never "//" |
| `Paths.EmptyNameBelowRoot` | dfe_to_tp.py:12-14 | a root-level dir named "" yields path "/" again, so the joined form needs its precondition |
| `OrderedDict.InsertionOrder` | dfe_to_tp.py:53-54 | the key order `frames[name] = frame` leaves: a new key is appended, a present one keeps its place; `AssignedSemantics` states what it is |
| `OrderedDict.LastWins` | dfe_to_tp.py:53-54 | the contents `frames[name] = frame` leave: every key in them was assigned; `LastWinsValue` and `AssignedSemantics` state the rest |
| `OrderedDict.InsertionOrderMembers` | dfe_to_tp.py:53-54 | the key order holds exactly the assigned keys |
| `OrderedDict.InsertionOrderDistinct` | dfe_to_tp.py:53-54 | no key appears twice in the key order |
| `OrderedDict.InsertionOrderByFirstAssignment` | dfe_to_tp.py:53-54 | keys sit in the order of their first assignment |
| `OrderedDict.InsertionOrderLength` | dfe_to_tp.py:53-54 | the key order is at most as long as the assignments, and exactly as long iff no key repeats |
| `OrderedDict.LastWinsKeys` | dfe_to_tp.py:53-54 | the contents hold exactly the assigned keys |
| `OrderedDict.LastWinsValue` | dfe_to_tp.py:53-54 | a key holds the value of its last assignment |
| `OrderedDict.AssignedSemantics` | dfe_to_tp.py:48-54 | after the assignments: exactly the assigned keys, each once, ordered by first assignment, each holding its last value |
| `OrderedDict.CollisionShrinks` | dfe_to_tp.py:53-54 | two assignments to one key leave fewer keys than assignments |
| `SpriteWalk.FrameName` | dfe_to_tp.py:34 | the key is the containing node's name, "_", then the sprite's name, with nothing else; `ParentIsLastOnRoute` says which node that is |
| `SpriteWalk.WalkDir` | dfe_to_tp.py:8-44 | the visits of a node: its dirs' walks in document order, then its own sprites; `WalkCount`, `DirsBeforeOwnSprites` and `WalkMatchesLeaves` state what they are |
| `SpriteWalk.WalkDirs` | dfe_to_tp.py:10-16 | the dirs' walks one after the other, each below its child path; `WalkDirsCount`, `DirBlock` and `WalkDirsMatchLeaves` state what they are |
| `SpriteWalk.SpriteFrame` | dfe_to_tp.py:27-42 | the record is unrotated and untrimmed; `frame` and `spriteSourceSize` are the sprite's {x,y,w,h}; `sourceSize` is its {w,h} |
| `SpriteWalk.WalkCount` | dfe_to_tp.py:10-44 | the walk yields one pair per `spr` leaf of the subtree, counted over all `dir` descendants |
| `SpriteWalk.WalkDirsCount` | dfe_to_tp.py:10-16 | walking a list of dirs yields as many pairs as they hold sprites |
| `SpriteWalk.DirsBeforeOwnSprites` | dfe_to_tp.py:8-44 | all visits from dir children come first, then one visit per own sprite in document order, keyed by the node's name |
| `SpriteWalk.WalkDirsAppend` | dfe_to_tp.py:10-16 | walking two lists of dirs in turn yields the walk of their concatenation, in that order |
| `SpriteWalk.DirBlock` | dfe_to_tp.py:10-16 | each dir child's visits form one block between those of the dirs before and after it: dirs are walked in document order |
| `SpriteWalk.WalkMatchesLeaves` | dfe_to_tp.py:8-44 | the walk reports the tree's leaves in order: path = start path descended through route and name, key = parent_name, frame = the sprite's record |
| `SpriteWalk.ParentIsLastOnRoute` | dfe_to_tp.py:10-34 | a leaf's key parent is the last dir on its route (or the start node), never an earlier one |
| `SpriteWalk.YieldsAreLeafPairs` | dfe_to_tp.py:19-44 | the yielded pairs are the leaves' (parent_name, record) pairs, whatever the path |
| `SpriteWalk.YieldsIgnorePath` | dfe_to_tp.py:12-44 | the yielded pairs do not depend on the accumulated path |
| `SpriteWalk.AllUntrimmed` | dfe_to_tp.py:36-44 | every yielded record is unrotated, untrimmed and sourced from its own rectangle |
| `SpriteWalk.RootVisitPath` | dfe_to_tp.py:12-25 | from the root, a sprite's printed path is "/" followed by its route and name joined with "/", provided the first name on the route is non-empty |
| `SpriteWalk.RootVisitSingleSlash` | dfe_to_tp.py:12-25 | if no name starts with "/", no printed sprite path starts with "//" |
| `DfeToTp.ParseSprites` | dfe_to_tp.py:46-56 | fails when `definitions` or its first child is missing; otherwise the loop's ordered dictionary is exactly the assignment of the walk's yields |
| `DfeToTp.Parse` | dfe_to_tp.py:58-75 | frames are those of `parse_sprites`; `meta` is the fixed app URL, the sheet's name as image and scale "1"; failures propagate |
| `DfeToTp.TreeYieldsAreLeafPairs` | dfe_to_tp.py:51-53 | the walk from "/" yields the leaves' pairs, one per sprite of the tree |
| `DfeToTp.TreeFramesKeys` | dfe_to_tp.py:48-54 | the frames hold exactly the leaves' keys, each once, ordered by first sprite, never more than the sprites, and exactly as many iff no two sprites share a key |
| `DfeToTp.TreeFramesValues` | dfe_to_tp.py:48-54 | each key holds the record of the last sprite with that key |
| `DfeToTp.TreeFramesUntrimmed` | dfe_to_tp.py:36-54 | every frame in the output is unrotated, untrimmed and sourced from its own rectangle |
| `DfeToTp.SameNamesCollide` | dfe_to_tp.py:19-54 | two sprites with the same key (same node and sprite names, or another split around "_") leave fewer frames than sprites |
| `DfeToTp.SameNamedDirsExample` | dfe_to_tp.py:10-54 | two dirs "walk" each holding "a" give one frame "walk_a" with the second sprite's rectangle |
| `DfeToTp.SingleSpriteExample` | dfe_to_tp.py:10-54 | dir "walk" holding "a" at (0,0,10,10) gives exactly frame "walk_a", unrotated, untrimmed, sourced from itself |

## Left out

- `load_files` (dfe_to_tp.py:77-82): file reading and XML parsing by a foreign library. The model starts from the parsed tree. `Sheet.definitions` stands for the children of the root element's first `definitions` child.
- `main` (dfe_to_tp.py:84-97): argument parsing, absolute paths and writing the output file.
- JSON serialisation (`json.dumps` with sorted keys and indentation): the document is modelled as values, not text. Sorting keys on output hides the dictionary's insertion order.
- The diagnostic `print` (dfe_to_tp.py:25): each `Visit` keeps the printed path as data, but nothing is printed.
- Python's `int()` on attribute strings (whitespace, signs, underscores, `ValueError`): rectangle attributes are already integers.
- Missing `name` attributes: every name is a string here. In the code, a `dir` or `spr` without a name aborts with a TypeError when its path is built (dfe_to_tp.py:12, 22); a start node without a name gives keys "None_…" (dfe_to_tp.py:19, 34); a sheet without a name gives a JSON null image.
- Elements other than `dir` and `spr` below a node are not represented. The walk never looks at them.
- The animation converter described alongside this tool is not part of this model. Its code is not in the modelled file.
