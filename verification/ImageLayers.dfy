/** Extraction of image layers in place (`unpack_layer`), against the "Whiteouts" section of the OCI image
    layer specification. */
module ImageLayers {
  import opened Prelude

  /** Path components below the root file system; the root itself is the empty path. */
  type Path = seq<string>

  /** A directory created on the way to a deeper entry has no metadata of its own. */
  datatype Node = Dir(meta: Option<string>) | Leaf(content: string)

  type Tree = map<Path, Node>

  /** One archive entry, after its file name has been looked at. */
  datatype Entry = Put(path: Path, node: Node) | Whiteout(path: Path) | Opaque(dir: Path)

  const MARK := ".wh."
  const OPAQUE_MARK := ".wh..wh..opq"

  predicate IsMarked(name: string) {
    MARK <= name
  }

  /** The three branches of the entry loop. A marker with no name after it joins an empty name to its directory,
      which is the directory itself. */
  function Classify(path: Path, node: Node): Entry {
    if path == [] then Put([], node)
    else
      var dir, name := path[..|path| - 1], path[|path| - 1];
      if name == OPAQUE_MARK then Opaque(dir)
      else if name == MARK then Whiteout(dir)
      else if IsMarked(name) then Whiteout(dir + [name[|MARK|..]])
      else Put(path, node)
  }

  /** A layer as stored: entries in archive order, each with its own metadata. */
  type Archive = seq<(Path, Node)>

  function Entries(layer: Archive): seq<Entry> {
    seq(|layer|, i requires 0 <= i < |layer| => Classify(layer[i].0, layer[i].1))
  }

  /** What a whiteout deletes: a path with everything below it, or everything below a directory except
      children that are themselves marked. */
  predicate Covers(e: Entry, q: Path) {
    match e
    case Put(_, _) => false
    case Whiteout(p) => p <= q
    case Opaque(d) => d < q && !IsMarked(q[|d|])
  }

  /** What an archive entry of this path hides, told from the file name: ".wh..wh..opq" hides what is below its
      directory except under names that begin with ".wh."; ".wh." followed by a name hides the sibling of that name
      with everything below it, and the directory itself if no name follows; any other entry hides nothing. */
  predicate Hides(path: Path, q: Path) {
    path != [] &&
    var dir, name := path[..|path| - 1], path[|path| - 1];
    if name == ".wh..wh..opq" then |dir| < |q| && q[..|dir|] == dir && !(".wh." <= q[|dir|])
    else if name == ".wh." then |dir| <= |q| && q[..|dir|] == dir
    else |dir| < |q| && q[..|dir|] == dir && name == ".wh." + q[|dir|]
  }

  /** An entry that is unpacked: its file name does not begin with ".wh.". */
  predicate IsOrdinary(path: Path) {
    path == [] || !(".wh." <= path[|path| - 1])
  }

  /** The entry loop tells the three kinds of entry apart by their names, and acts on exactly the paths they name. */
  lemma EntryMeaning(path: Path, node: Node, q: Path)
    ensures Classify(path, node).Put? <==> IsOrdinary(path)
    ensures IsOrdinary(path) ==> Classify(path, node) == Put(path, node)
    ensures Covers(Classify(path, node), q) <==> Hides(path, q)
  {
    assert OPAQUE_MARK[..4] == ".wh.";
    if !IsOrdinary(path) {
      var dir, name := path[..|path| - 1], path[|path| - 1];
      PrefixIff(dir, q);
      if name != OPAQUE_MARK && name != ".wh." {
        var target := name[4..];
        assert name == ".wh." + target;
        PrefixIff(dir + [target], q);
        if |dir| < |q| && q[..|dir|] == dir {
          MarkedNameIff(name, target, q[|dir|]);
          assert q[..|dir| + 1] == q[..|dir|] + [q[|dir|]];
        }
        if dir + [target] <= q { assert q[..|dir| + 1][..|dir|] == dir && q[|dir|] == q[..|dir| + 1][|dir|]; }
      }
    }
  }

  lemma PrefixIff(p: Path, q: Path)
    ensures p <= q <==> |p| <= |q| && q[..|p|] == p
  {
  }

  lemma MarkedNameIff(name: string, target: string, other: string)
    requires name == ".wh." + target
    ensures name == ".wh." + other <==> target == other
  {
    assert name[4..] == target && (".wh." + other)[4..] == other;
  }

  // ---------------------------------------------------------------------
  // Extraction
  // ---------------------------------------------------------------------

  function Lookup(t: Tree, q: Path): Option<Node> {
    if q in t then Some(t[q]) else None
  }

  function Without(t: Tree, e: Entry): Tree {
    map q | q in t && !Covers(e, q) :: t[q]
  }

  predicate BelowLeaf(t: Tree, path: Path) {
    exists k | 0 < k < |path| :: path[..k] in t && t[path[..k]].Leaf?
  }

  function Ancestors(path: Path): set<Path> {
    set k | 0 < k < |path| :: path[..k]
  }

  function WithAncestors(t: Tree, path: Path): Tree {
    map q | q in t.Keys + Ancestors(path) :: if q in t then t[q] else Dir(None)
  }

  /** One entry. Extraction fails where a file stands in the way of a directory or the reverse. */
  function Apply(t: Tree, e: Entry): Option<Tree> {
    match e
    case Put(path, node) =>
      if path == [] then Some(t)
      else if BelowLeaf(t, path) || (path in t && t[path].Dir? != node.Dir?) then None
      else Some(WithAncestors(t, path)[path := node])
    case _ => Some(Without(t, e))
  }

  /** The first k entries of a layer. */
  function ExtractTo(t: Tree, layer: seq<Entry>, k: nat): Option<Tree>
    requires k <= |layer|
  {
    if k == 0 then Some(t)
    else match ExtractTo(t, layer, k - 1)
      case None => None
      case Some(u) => Apply(u, layer[k - 1])
  }

  function Extract(t: Tree, layer: seq<Entry>): Option<Tree> {
    ExtractTo(t, layer, |layer|)
  }

  lemma {:induction false} FailureStays(t: Tree, layer: seq<Entry>, k: nat, n: nat)
    requires k <= n <= |layer| && ExtractTo(t, layer, k).None?
    ensures ExtractTo(t, layer, n).None?
    decreases n
  {
    if k < n { FailureStays(t, layer, k, n - 1); }
  }

  /** Every entry stands in a directory. */
  ghost predicate WellFormed(t: Tree) {
    [] !in t && forall q, k | q in t && 0 < k < |q| :: q[..k] in t && t[q[..k]].Dir?
  }

  lemma ApplyKeepsWellFormed(t: Tree, e: Entry)
    requires WellFormed(t) && Apply(t, e).Some?
    ensures WellFormed(Apply(t, e).value)
  {
    var u := Apply(t, e).value;
    forall q, k | q in u && 0 < k < |q| ensures q[..k] in u && u[q[..k]].Dir? {
      match e
      case Put(path, node) =>
        PutKeepsParents(t, path, node, q, k);
      case _ =>
        assert q[..k] in t && t[q[..k]].Dir?;
        if Covers(e, q[..k]) { CoverExtends(e, q[..k], q); }
    }
  }

  lemma PrefixOfPrefix(p: Path, j: nat, k: nat)
    requires k <= j <= |p|
    ensures p[..j][..k] == p[..k]
  {
  }

  lemma PutKeepsParents(t: Tree, path: Path, node: Node, q: Path, k: nat)
    requires WellFormed(t) && Apply(t, Put(path, node)).Some? && q in Apply(t, Put(path, node)).value && 0 < k < |q|
    ensures var u := Apply(t, Put(path, node)).value; q[..k] in u && u[q[..k]].Dir?
  {
    if path != [] {
      if q in t {
        assert q[..k] in t && t[q[..k]].Dir?;
      } else {
        var j: nat :| k < j <= |path| && q == path[..j];
        PrefixOfPrefix(path, j, k);
        assert path[..k] in Ancestors(path);
        assert path[..k] in t ==> t[path[..k]].Dir?;
      }
    }
  }

  /** A whiteout that deletes a path deletes everything below it. */
  lemma CoverExtends(e: Entry, q: Path, p: Path)
    requires Covers(e, q) && q <= p
    ensures Covers(e, p)
  {
    match e
    case Whiteout(w) => assert w <= p;
    case Opaque(d) => assert d < p && p[|d|] == q[|d|];
  }

  function Children(t: Tree, dir: Path): set<Path> {
    set q | q in t && |q| == |dir| + 1 && dir < q
  }

  lemma ChildIsPresent(t: Tree, dir: Path, q: Path)
    requires WellFormed(t) && q in t && dir < q
    ensures q[..|dir| + 1] in Children(t, dir)
  {
    var child := q[..|dir| + 1];
    assert child[..|dir|] == q[..|dir|] == dir;
    assert |child| < |q| || child == q;
  }

  /** The path is gone once only the children in `todo` are left to look at. */
  predicate Cleared(dir: Path, todo: set<Path>, q: Path) {
    Covers(Opaque(dir), q) && q[..|dir| + 1] !in todo
  }

  lemma ClearedStep(dir: Path, todo: set<Path>, child: Path, q: Path)
    requires child in todo && |child| == |dir| + 1 && dir < child
    ensures Cleared(dir, todo - {child}, q) <==>
            Cleared(dir, todo, q) || (!IsMarked(child[|dir|]) && child <= q)
  {
    assert child <= q ==> q[..|dir| + 1] == child && q[..|dir|] == child[..|dir|] == dir;
    assert dir < q && q[..|dir| + 1] == child ==> q[|dir|] == q[..|dir| + 1][|dir|] == child[|dir|];
  }

  /** What is left when only the children in `todo` are still to be looked at. */
  function Uncleared(t: Tree, dir: Path, todo: set<Path>): Tree {
    map q | q in t && !Cleared(dir, todo, q) :: t[q]
  }

  lemma NothingCleared(t: Tree, dir: Path)
    requires WellFormed(t)
    ensures Uncleared(t, dir, Children(t, dir)) == t
  {
    forall q | q in t ensures !Cleared(dir, Children(t, dir), q) {
      if dir < q { ChildIsPresent(t, dir, q); }
    }
  }

  lemma AllCleared(t: Tree, dir: Path)
    ensures Uncleared(t, dir, {}) == Without(t, Opaque(dir))
  {
  }

  lemma ChildCleared(t: Tree, dir: Path, todo: set<Path>, child: Path)
    requires child in todo && |child| == |dir| + 1 && dir < child
    ensures Uncleared(t, dir, todo - {child}) ==
            if IsMarked(child[|dir|]) then Uncleared(t, dir, todo)
            else Without(Uncleared(t, dir, todo), Whiteout(child))
  {
    forall q | q in t ensures Cleared(dir, todo - {child}, q) <==>
                              Cleared(dir, todo, q) || (!IsMarked(child[|dir|]) && child <= q) {
      ClearedStep(dir, todo, child, q);
    }
  }

  /** The directory the layers are unpacked into. */
  class Rootfs {
    var tree: Tree

    /** The directory holds the saved image configuration when unpacking starts. */
    constructor (initial: Tree)
      ensures tree == initial
    {
      tree := initial;
    }

    /** `remove_dir_all` or `remove_file`: the path and everything below it. */
    method Remove(path: Path)
      modifies this
      ensures tree == Without(old(tree), Whiteout(path))
    {
      tree := Without(tree, Whiteout(path));
    }

    /** The opaque branch: every unmarked child of the directory is removed with what is below it. */
    method ClearDirectory(dir: Path)
      requires WellFormed(tree)
      modifies this
      ensures tree == Without(old(tree), Opaque(dir))
    {
      var todo := Children(tree, dir);
      NothingCleared(tree, dir);
      while todo != {}
        invariant todo <= Children(old(tree), dir) && tree == Uncleared(old(tree), dir, todo)
        decreases todo
      {
        var child :| child in todo;
        ChildCleared(old(tree), dir, todo, child);
        if !IsMarked(child[|dir|]) {
          Remove(child);
        }
        todo := todo - {child};
      }
      AllCleared(old(tree), dir);
    }

    /** One entry: a marker deletes, anything else is unpacked. */
    method UnpackEntry(e: Entry) returns (ok: bool)
      requires WellFormed(tree)
      modifies this
      ensures ok == Apply(old(tree), e).Some?
      ensures ok ==> Apply(old(tree), e) == Some(tree) && WellFormed(tree)
    {
      var next := Apply(tree, e);
      if next.None? { return false; }
      ApplyKeepsWellFormed(tree, e);
      match e {
        case Opaque(dir) => ClearDirectory(dir);
        case Whiteout(path) => Remove(path);
        case Put(path, node) => tree := next.value;
      }
      return true;
    }

    /** The entry loop over one layer. */
    method UnpackLayer(layer: Archive) returns (ok: bool)
      requires WellFormed(tree)
      modifies this
      ensures ok <==> Fits(old(tree), Entries(layer))
      ensures Extract(old(tree), Entries(layer)).Some? == ok
      ensures ok ==> Extract(old(tree), Entries(layer)) == Some(tree) && WellFormed(tree)
    {
      ghost var entries := Entries(layer);
      for i := 0 to |layer|
        invariant ExtractTo(old(tree), entries, i) == Some(tree) && WellFormed(tree)
      {
        ok := UnpackEntry(Classify(layer[i].0, layer[i].1));
        if !ok {
          FailureStays(old(tree), entries, i + 1, |entries|);
          ExtractionSucceedsIff(old(tree), entries);
          return;
        }
      }
      ExtractionSucceedsIff(old(tree), entries);
      return true;
    }

    /** The layer loop of `pull`. */
    method UnpackAll(layers: seq<Archive>) returns (ok: bool)
      requires WellFormed(tree)
      modifies this
      ensures ok <==> ExtractLayers(old(tree), layers).Some?
      ensures ok ==> ExtractLayers(old(tree), layers) == Some(tree) && WellFormed(tree)
    {
      for i := 0 to |layers|
        invariant WellFormed(tree)
        invariant ExtractLayers(old(tree), layers) == ExtractLayers(tree, layers[i..])
      {
        assert layers[i..][0] == layers[i] && layers[i..][1..] == layers[i + 1..];
        ok := UnpackLayer(layers[i]);
        if !ok { return; }
      }
      return true;
    }
  }

  /** The layers one over the other, bottom layer first. */
  function ExtractLayers(t: Tree, layers: seq<Archive>): Option<Tree>
    decreases |layers|
  {
    if layers == [] then Some(t)
    else match Extract(t, Entries(layers[0]))
      case None => None
      case Some(u) => ExtractLayers(u, layers[1..])
  }

  // ---------------------------------------------------------------------
  // One path through a layer
  // ---------------------------------------------------------------------

  /** What one entry does to what stands at a path. */
  function Touch(v: Option<Node>, e: Entry, q: Path): Option<Node> {
    match e
    case Put(path, node) =>
      if q == path then Some(node)
      else if q < path && v.None? then Some(Dir(None))
      else v
    case _ => if Covers(e, q) then None else v
  }

  /** What stands at a path after the first k entries, from what stood there before. */
  function After(v: Option<Node>, layer: seq<Entry>, q: Path, k: nat): Option<Node>
    requires k <= |layer|
  {
    if k == 0 then v else Touch(After(v, layer, q, k - 1), layer[k - 1], q)
  }

  lemma ApplyTouches(t: Tree, e: Entry, q: Path)
    requires q != [] && Apply(t, e).Some?
    ensures Lookup(Apply(t, e).value, q) == Touch(Lookup(t, q), e, q)
  {
    if e.Put? && e.path != [] {
      assert q < e.path <==> q in Ancestors(e.path) by {
        assert q < e.path ==> e.path[..|q|] == q;
      }
    }
  }

  /** Extraction acts on each path separately. */
  lemma {:induction false} ExtractionIsPathwise(t: Tree, layer: seq<Entry>, q: Path, k: nat)
    requires q != [] && k <= |layer| && ExtractTo(t, layer, k).Some?
    ensures Lookup(ExtractTo(t, layer, k).value, q) == After(Lookup(t, q), layer, q, k)
    decreases k
  {
    if k > 0 {
      ExtractionIsPathwise(t, layer, q, k - 1);
      ApplyTouches(ExtractTo(t, layer, k - 1).value, layer[k - 1], q);
    }
  }

  // ---------------------------------------------------------------------
  // When extraction succeeds
  // ---------------------------------------------------------------------

  /** Entry k finds no file in the way of its directories, and nothing of the other kind at its own path. */
  ghost predicate NoClash(lower: Tree, layer: seq<Entry>, k: nat)
    requires k < |layer|
  {
    layer[k].Put? && layer[k].path != [] ==>
      var path, node := layer[k].path, layer[k].node;
      (forall m | 0 < m < |path| :: !IsLeaf(After(Lookup(lower, path[..m]), layer, path[..m], k)))
      && SameKind(After(Lookup(lower, path), layer, path, k), node)
  }

  predicate IsLeaf(v: Option<Node>) {
    v.Some? && v.value.Leaf?
  }

  predicate SameKind(v: Option<Node>, node: Node) {
    v.Some? ==> v.value.Dir? == node.Dir?
  }

  ghost predicate Fits(lower: Tree, layer: seq<Entry>) {
    forall k | 0 <= k < |layer| :: NoClash(lower, layer, k)
  }

  lemma StepSucceedsIff(lower: Tree, layer: seq<Entry>, k: nat)
    requires k < |layer| && ExtractTo(lower, layer, k).Some?
    ensures ExtractTo(lower, layer, k + 1).Some? <==> NoClash(lower, layer, k)
  {
    var t := ExtractTo(lower, layer, k).value;
    if layer[k].Put? && layer[k].path != [] {
      var path, node := layer[k].path, layer[k].node;
      forall m | 0 < m <= |path|
        ensures Lookup(t, path[..m]) == After(Lookup(lower, path[..m]), layer, path[..m], k)
      {
        ExtractionIsPathwise(lower, layer, path[..m], k);
      }
      assert path[..|path|] == path;
      assert BelowLeaf(t, path) <==> exists m | 0 < m < |path| :: IsLeaf(Lookup(t, path[..m]));
    }
  }

  lemma {:induction false} SucceedsTo(lower: Tree, layer: seq<Entry>, k: nat)
    requires k <= |layer|
    ensures ExtractTo(lower, layer, k).Some? <==> forall j | 0 <= j < k :: NoClash(lower, layer, j)
  {
    if k > 0 {
      SucceedsTo(lower, layer, k - 1);
      if ExtractTo(lower, layer, k - 1).Some? { StepSucceedsIff(lower, layer, k - 1); }
    }
  }

  /** Extraction succeeds exactly when no entry meets a node of the wrong kind. */
  lemma ExtractionSucceedsIff(lower: Tree, layer: seq<Entry>)
    ensures Extract(lower, layer).Some? <==> Fits(lower, layer)
  {
    SucceedsTo(lower, layer, |layer|);
  }

  // ---------------------------------------------------------------------
  // The overlay meaning
  // ---------------------------------------------------------------------

  predicate PutAt(e: Entry, q: Path) {
    e.Put? && e.path == q
  }

  predicate PutBelow(e: Entry, q: Path) {
    e.Put? && q < e.path
  }

  ghost predicate Hidden(layer: seq<Entry>, q: Path) {
    exists i | 0 <= i < |layer| :: Covers(layer[i], q)
  }

  ghost predicate HasBelow(layer: seq<Entry>, q: Path, from: nat, to: nat)
    requires to <= |layer|
  {
    exists i | from <= i < to :: PutBelow(layer[i], q)
  }

  /** The last ordinary entry for a path, among the first k entries. */
  function LastPut(layer: seq<Entry>, q: Path, k: nat): Option<Node>
    requires k <= |layer|
  {
    if k == 0 then None
    else if PutAt(layer[k - 1], q) then Some(layer[k - 1].node)
    else LastPut(layer, q, k - 1)
  }

  /** The layer has a file where the path has a directory. */
  ghost predicate UnderLeaf(layer: seq<Entry>, q: Path) {
    exists m | 0 < m < |q| :: IsLeaf(LastPut(layer, q[..m], |layer|))
  }

  /** A layer over a lower tree: its own entries first; else what the lower tree has, unless the layer hides it by
      a whiteout, by a file further up or by entries below a lower file; else a plain directory where the layer has
      something below. */
  ghost function OverlaidNode(lower: Option<Node>, layer: seq<Entry>, q: Path): Option<Node> {
    if LastPut(layer, q, |layer|).Some? then LastPut(layer, q, |layer|)
    else if lower.Some? && !Hidden(layer, q) && !UnderLeaf(layer, q)
        && !(IsLeaf(lower) && HasBelow(layer, q, 0, |layer|))
    then lower
    else if HasBelow(layer, q, 0, |layer|) then Some(Dir(None))
    else None
  }

  /** The same as long as no node changes its kind. */
  ghost function KeptNode(lower: Option<Node>, layer: seq<Entry>, q: Path): Option<Node> {
    if LastPut(layer, q, |layer|).Some? then LastPut(layer, q, |layer|)
    else if lower.Some? && !Hidden(layer, q) then lower
    else if HasBelow(layer, q, 0, |layer|) then Some(Dir(None))
    else None
  }

  /** No whiteout deletes an ordinary entry of its own layer for good. */
  ghost predicate NoLateWhiteout(layer: seq<Entry>) {
    forall i, j | 0 <= i < j < |layer| && layer[i].Put? && Covers(layer[j], layer[i].path) ::
      exists k | j < k < |layer| :: PutAt(layer[k], layer[i].path)
  }

  /** Archive entries carry their own metadata, and no whiteout names the root. */
  predicate Explicit(layer: seq<Entry>) {
    forall i | 0 <= i < |layer| ::
      (layer[i].Put? ==> layer[i].node != Dir(None)) && (layer[i].Whiteout? ==> layer[i].path != [])
  }

  /** Every entry has its metadata, and no marker without a name stands at the root. */
  predicate Proper(layer: Archive) {
    forall i | 0 <= i < |layer| :: layer[i].1 != Dir(None) && layer[i].0 != [MARK]
  }

  lemma EntriesAreExplicit(layer: Archive)
    requires Proper(layer)
    ensures Explicit(Entries(layer))
  {
  }

  lemma {:induction false} LastPutPosition(layer: seq<Entry>, q: Path, k: nat) returns (i: nat)
    requires k <= |layer| && LastPut(layer, q, k).Some?
    ensures i < k && PutAt(layer[i], q) && LastPut(layer, q, k) == Some(layer[i].node)
    ensures forall m | i < m < k :: !PutAt(layer[m], q)
    decreases k
  {
    if PutAt(layer[k - 1], q) {
      i := k - 1;
    } else {
      i := LastPutPosition(layer, q, k - 1);
    }
  }

  lemma {:induction false} NoPut(layer: seq<Entry>, q: Path, k: nat, i: nat)
    requires i < k <= |layer| && LastPut(layer, q, k).None?
    ensures !PutAt(layer[i], q)
    decreases k
  {
    if i < k - 1 { NoPut(layer, q, k - 1, i); }
  }

  /** What stands at a path stays there while nothing covers the path or is put at it. */
  lemma {:induction false} Undisturbed(v: Option<Node>, layer: seq<Entry>, q: Path, k: nat, n: nat)
    requires k <= n <= |layer|
    requires forall m | k <= m < n :: !PutAt(layer[m], q) && !Covers(layer[m], q)
    ensures After(v, layer, q, n) ==
            if After(v, layer, q, k).Some? then After(v, layer, q, k)
            else if HasBelow(layer, q, k, n) then Some(Dir(None)) else None
    decreases n
  {
    if k < n {
      Undisturbed(v, layer, q, k, n - 1);
      assert HasBelow(layer, q, k, n) <==> HasBelow(layer, q, k, n - 1) || PutBelow(layer[n - 1], q);
    }
  }

  lemma {:induction false} LastCover(layer: seq<Entry>, q: Path, n: nat) returns (j: nat)
    requires n <= |layer| && exists i | 0 <= i < n :: Covers(layer[i], q)
    ensures j < n && Covers(layer[j], q) && forall m | j < m < n :: !Covers(layer[m], q)
    decreases n
  {
    if Covers(layer[n - 1], q) {
      j := n - 1;
    } else {
      j := LastCover(layer, q, n - 1);
    }
  }

  lemma LastPutIsNotCovered(layer: seq<Entry>, q: Path, i: nat, m: nat)
    requires NoLateWhiteout(layer) && i < m < |layer| && PutAt(layer[i], q)
    requires forall k | i < k < |layer| :: !PutAt(layer[k], q)
    ensures !Covers(layer[m], q)
  {
  }

  lemma LastPutStays(v: Option<Node>, layer: seq<Entry>, q: Path)
    requires NoLateWhiteout(layer) && LastPut(layer, q, |layer|).Some?
    ensures After(v, layer, q, |layer|) == LastPut(layer, q, |layer|)
  {
    var n := |layer|;
    var i := LastPutPosition(layer, q, n);
    assert After(v, layer, q, i + 1) == Some(layer[i].node);
    forall m | i + 1 <= m < n ensures !PutAt(layer[m], q) && !Covers(layer[m], q) {
      LastPutIsNotCovered(layer, q, i, m);
    }
    Undisturbed(v, layer, q, i + 1, n);
  }

  /** With no late whiteout, a path ends up with its last entry, else with what was there and is not hidden. */
  lemma PathIsKept(v: Option<Node>, layer: seq<Entry>, q: Path)
    requires NoLateWhiteout(layer)
    ensures After(v, layer, q, |layer|) == KeptNode(v, layer, q)
  {
    var n := |layer|;
    if LastPut(layer, q, n).Some? {
      LastPutStays(v, layer, q);
    } else {
      forall m | 0 <= m < n ensures !PutAt(layer[m], q) { NoPut(layer, q, n, m); }
      if Hidden(layer, q) {
        var j := LastCover(layer, q, n);
        assert After(v, layer, q, j + 1) == None;
        Undisturbed(v, layer, q, j + 1, n);
        EntriesBelowSurvive(layer, q, j);
      } else {
        Undisturbed(v, layer, q, 0, n);
      }
    }
  }

  lemma EntriesBelowSurvive(layer: seq<Entry>, q: Path, j: nat)
    requires NoLateWhiteout(layer) && j < |layer| && Covers(layer[j], q)
    ensures HasBelow(layer, q, 0, |layer|) <==> HasBelow(layer, q, j + 1, |layer|)
  {
    if i :| 0 <= i < |layer| && PutBelow(layer[i], q) {
      if i <= j {
        CoverExtends(layer[j], q, layer[i].path);
        var k :| j < k < |layer| && PutAt(layer[k], layer[i].path);
        assert PutBelow(layer[k], q);
      } else {
        assert PutBelow(layer[i], q);
      }
    }
  }

  /** A late whiteout is visible: the path it deletes does not end up as the overlay says. */
  lemma LateWhiteoutIsVisible(v: Option<Node>, layer: seq<Entry>, i: nat, j: nat)
    requires Explicit(layer) && i < j < |layer| && layer[i].Put? && Covers(layer[j], layer[i].path)
    requires forall k | j < k < |layer| :: !PutAt(layer[k], layer[i].path)
    ensures After(v, layer, layer[i].path, |layer|) != OverlaidNode(v, layer, layer[i].path)
  {
    var q, n := layer[i].path, |layer|;
    if LastPut(layer, q, n).None? { NoPut(layer, q, n, i); }
    var last := LastPutPosition(layer, q, n);
    assert layer[last].node != Dir(None);
    var c := LastCover(layer, q, n);
    assert c >= j;
    assert After(v, layer, q, c + 1) == None;
    Undisturbed(v, layer, q, c + 1, n);
  }

  /** A lower directory stays one while nothing covers it and no entry clashes. */
  lemma {:induction false} StaysDirectory(lower: Tree, layer: seq<Entry>, p: Path, k: nat)
    requires p != [] && Fits(lower, layer) && k <= |layer| && p in lower && lower[p].Dir?
    requires forall j | 0 <= j < k :: !Covers(layer[j], p)
    ensures After(Lookup(lower, p), layer, p, k).Some? && After(Lookup(lower, p), layer, p, k).value.Dir?
  {
    if k > 0 {
      StaysDirectory(lower, layer, p, k - 1);
      assert NoClash(lower, layer, k - 1);
    }
  }

  /** A file over a lower directory: the directory was whited out before. */
  lemma UnderLeafIsHidden(lower: Tree, layer: seq<Entry>, q: Path, m: nat)
    requires WellFormed(lower) && Fits(lower, layer) && q in lower
    requires 0 < m < |q| && IsLeaf(LastPut(layer, q[..m], |layer|))
    ensures Hidden(layer, q)
  {
    var p := q[..m];
    var i := LastPutPosition(layer, p, |layer|);
    assert NoClash(lower, layer, i);
    assert lower[p].Dir?;
    if forall j | 0 <= j < i :: !Covers(layer[j], p) {
      StaysDirectory(lower, layer, p, i);
    }
    var j :| 0 <= j < i && Covers(layer[j], p);
    CoverExtends(layer[j], p, q);
  }

  /** An entry below a lower file: the file was whited out before. */
  lemma LeafAboveIsHidden(lower: Tree, layer: seq<Entry>, q: Path)
    requires Fits(lower, layer) && q != [] && IsLeaf(Lookup(lower, q))
    requires LastPut(layer, q, |layer|).None? && HasBelow(layer, q, 0, |layer|)
    ensures Hidden(layer, q)
  {
    var v, n := Lookup(lower, q), |layer|;
    var i :| 0 <= i < n && PutBelow(layer[i], q);
    var path := layer[i].path;
    assert path[..|q|] == q && NoClash(lower, layer, i);
    assert !IsLeaf(After(v, layer, q, i));
    forall m | 0 <= m < n ensures !PutAt(layer[m], q) { NoPut(layer, q, n, m); }
    if forall j | 0 <= j < i :: !Covers(layer[j], q) {
      Undisturbed(v, layer, q, 0, i);
    }
  }

  lemma KeptIsOverlaid(lower: Tree, layer: seq<Entry>, q: Path)
    requires WellFormed(lower) && Fits(lower, layer) && q != []
    ensures KeptNode(Lookup(lower, q), layer, q) == OverlaidNode(Lookup(lower, q), layer, q)
  {
    if q in lower && LastPut(layer, q, |layer|).None? {
      if UnderLeaf(layer, q) {
        var m :| 0 < m < |q| && IsLeaf(LastPut(layer, q[..m], |layer|));
        UnderLeafIsHidden(lower, layer, q, m);
      }
      if lower[q].Leaf? && HasBelow(layer, q, 0, |layer|) {
        LeafAboveIsHidden(lower, layer, q);
      }
    }
  }

  // ---------------------------------------------------------------------
  // Main results
  // ---------------------------------------------------------------------

  /** `t` is `layer` over `lower`, path by path. */
  ghost predicate IsOverlay(lower: Tree, layer: seq<Entry>, t: Tree) {
    [] !in t && forall q: Path | q != [] :: Lookup(t, q) == OverlaidNode(Lookup(lower, q), layer, q)
  }

  ghost predicate ExtractsToOverlay(lower: Tree, layer: seq<Entry>) {
    Extract(lower, layer).Some? && IsOverlay(lower, layer, Extract(lower, layer).value)
  }

  /** In-place extraction of a layer gives its overlay over the lower tree exactly when no entry meets a node of the
      wrong kind and no whiteout of the layer deletes one of its own ordinary entries for good. */
  lemma ExtractionIsOverlayIff(lower: Tree, layer: seq<Entry>)
    requires WellFormed(lower) && Explicit(layer)
    ensures ExtractsToOverlay(lower, layer) <==> Fits(lower, layer) && NoLateWhiteout(layer)
  {
    ExtractionSucceedsIff(lower, layer);
    if Fits(lower, layer) {
      var t := Extract(lower, layer).value;
      forall q: Path | q != [] ensures Lookup(t, q) == After(Lookup(lower, q), layer, q, |layer|) {
        ExtractionIsPathwise(lower, layer, q, |layer|);
      }
      if NoLateWhiteout(layer) {
        ExtractKeepsWellFormed(lower, layer, |layer|);
        forall q: Path | q != [] ensures Lookup(t, q) == OverlaidNode(Lookup(lower, q), layer, q) {
          PathIsKept(Lookup(lower, q), layer, q);
          KeptIsOverlaid(lower, layer, q);
        }
      } else {
        LateWhiteoutBreaksOverlay(lower, layer, t);
      }
    }
  }

  lemma LateWhiteoutBreaksOverlay(lower: Tree, layer: seq<Entry>, t: Tree)
    requires Explicit(layer) && !NoLateWhiteout(layer)
    requires forall q: Path | q != [] :: Lookup(t, q) == After(Lookup(lower, q), layer, q, |layer|)
    ensures !IsOverlay(lower, layer, t)
  {
    var i, j :| 0 <= i < j < |layer| && layer[i].Put? && Covers(layer[j], layer[i].path)
                && !exists k | j < k < |layer| :: PutAt(layer[k], layer[i].path);
    var q := layer[i].path;
    LateWhiteoutIsVisible(Lookup(lower, q), layer, i, j);
  }

  lemma {:induction false} ExtractKeepsWellFormed(t: Tree, layer: seq<Entry>, k: nat)
    requires WellFormed(t) && k <= |layer| && ExtractTo(t, layer, k).Some?
    ensures WellFormed(ExtractTo(t, layer, k).value)
  {
    if k > 0 {
      ExtractKeepsWellFormed(t, layer, k - 1);
      ApplyKeepsWellFormed(ExtractTo(t, layer, k - 1).value, layer[k - 1]);
    }
  }

  lemma OverlayIsUnique(lower: Tree, layer: seq<Entry>, t: Tree, u: Tree)
    requires IsOverlay(lower, layer, t) && IsOverlay(lower, layer, u)
    ensures t == u
  {
    forall q ensures Lookup(t, q) == Lookup(u, q) {}
    assert forall q :: q in t <==> Lookup(t, q).Some?;
    assert forall q :: q in u <==> Lookup(u, q).Some?;
    assert t.Keys == u.Keys;
    forall q | q in t ensures t[q] == u[q] {
      assert Lookup(t, q) == Lookup(u, q);
    }
  }

  /** A stack of overlays, bottom layer first. */
  ghost predicate IsStack(lower: Tree, layers: seq<Archive>, t: Tree)
    decreases |layers|
  {
    if layers == [] then t == lower
    else exists u :: IsOverlay(lower, Entries(layers[0]), u) && IsStack(u, layers[1..], t)
  }

  /** Each layer fits the overlays of those below it. */
  ghost predicate AllFit(lower: Tree, layers: seq<Archive>)
    decreases |layers|
  {
    layers == [] ||
    (Fits(lower, Entries(layers[0]))
     && forall u | IsOverlay(lower, Entries(layers[0]), u) :: AllFit(u, layers[1..]))
  }

  /** Extracting layers without late whiteouts one over the other succeeds exactly when each fits what is below it,
      and then gives the stack of their overlays. */
  lemma {:induction false} ExtractionIsStackIff(lower: Tree, layers: seq<Archive>)
    requires WellFormed(lower)
    requires forall i | 0 <= i < |layers| :: Proper(layers[i]) && NoLateWhiteout(Entries(layers[i]))
    ensures ExtractLayers(lower, layers).Some? <==> AllFit(lower, layers)
    ensures ExtractLayers(lower, layers).Some? ==> IsStack(lower, layers, ExtractLayers(lower, layers).value)
    decreases |layers|
  {
    if layers != [] {
      var entries := Entries(layers[0]);
      EntriesAreExplicit(layers[0]);
      ExtractionIsOverlayIff(lower, entries);
      ExtractionSucceedsIff(lower, entries);
      if Fits(lower, entries) {
        var u := Extract(lower, entries).value;
        ExtractKeepsWellFormed(lower, entries, |entries|);
        forall v | IsOverlay(lower, entries, v) ensures v == u { OverlayIsUnique(lower, entries, u, v); }
        ExtractionIsStackIff(u, layers[1..]);
        assert IsOverlay(lower, entries, u);
      }
    }
  }

  /** Each layer in turn extracts to its overlay over what is below it. */
  ghost predicate ExtractsAsStack(lower: Tree, layers: seq<Archive>)
    decreases |layers|
  {
    layers == [] ||
    (ExtractsToOverlay(lower, Entries(layers[0]))
     && ExtractsAsStack(Extract(lower, Entries(layers[0])).value, layers[1..]))
  }

  /** For any layers: each extracts to its overlay exactly when each fits what is below it and none has a late
      whiteout. */
  lemma {:induction false} EveryLayerIsOverlaidIff(lower: Tree, layers: seq<Archive>)
    requires WellFormed(lower) && forall i | 0 <= i < |layers| :: Proper(layers[i])
    ensures ExtractsAsStack(lower, layers) <==>
            AllFit(lower, layers) && forall i | 0 <= i < |layers| :: NoLateWhiteout(Entries(layers[i]))
    decreases |layers|
  {
    if layers != [] {
      var entries, rest := Entries(layers[0]), layers[1..];
      EntriesAreExplicit(layers[0]);
      ExtractionIsOverlayIff(lower, entries);
      assert (forall i | 0 <= i < |layers| :: NoLateWhiteout(Entries(layers[i]))) <==>
             NoLateWhiteout(entries) && forall i | 0 <= i < |rest| :: NoLateWhiteout(Entries(rest[i])) by {
        assert forall i | 0 <= i < |rest| :: rest[i] == layers[i + 1];
        assert forall i | 0 < i < |layers| :: layers[i] == rest[i - 1];
      }
      if ExtractsToOverlay(lower, entries) {
        var u := Extract(lower, entries).value;
        ExtractKeepsWellFormed(lower, entries, |entries|);
        forall v | IsOverlay(lower, entries, v) ensures v == u { OverlayIsUnique(lower, entries, u, v); }
        EveryLayerIsOverlaidIff(u, rest);
      }
    }
  }

  /** A file over a lower directory that is not empty, in the overlay, replaces it; extraction fails. */
  lemma FileOverDirectoryFails(dir: string, name: string, before: string, content: string, meta: Option<string>)
    ensures var lower: Tree := map[[dir] := Dir(meta), [dir, name] := Leaf(before)];
            var layer := [Put([dir], Leaf(content))];
            && WellFormed(lower) && NoLateWhiteout(layer) && Extract(lower, layer).None?
            && OverlaidNode(Lookup(lower, [dir]), layer, [dir]) == Some(Leaf(content))
            && OverlaidNode(Lookup(lower, [dir, name]), layer, [dir, name]) == None
  {
    var lower: Tree := map[[dir] := Dir(meta), [dir, name] := Leaf(before)];
    var layer := [Put([dir], Leaf(content))];
    assert [dir, name][..1] == [dir];
    assert ExtractTo(lower, layer, 0) == Some(lower);
    assert LastPut(layer, [dir, name][..1], 1) == Some(Leaf(content));
    assert LastPut(layer, [dir, name], 1) == LastPut(layer, [dir, name], 0);
  }

  /** An opaque marker that follows a file of its own layer deletes that file. */
  lemma OpaqueMarkerDeletesEarlierSibling(dir: string, name: string, content: string)
    requires !IsMarked(name)
    ensures var layer := Entries([([dir, name], Leaf(content)), ([dir, OPAQUE_MARK], Leaf(""))]);
            Extract(map[], layer) == Some(map[[dir] := Dir(None)])
            && OverlaidNode(None, layer, [dir, name]) == Some(Leaf(content))
  {
    var file, opaqueDir := Put([dir, name], Leaf(content)), Opaque([dir]);
    var layer := Entries([([dir, name], Leaf(content)), ([dir, OPAQUE_MARK], Leaf(""))]);
    assert OPAQUE_MARK[..|MARK|] == MARK;
    assert [dir, name][..1] == [dir] && [dir, OPAQUE_MARK][..1] == [dir];
    assert layer == [file, opaqueDir];
    var empty: Tree := map[];
    var t, u := Apply(empty, file).value, Without(Apply(empty, file).value, opaqueDir);
    assert Ancestors([dir, name]) == {[dir]};
    assert t == map[[dir] := Dir(None), [dir, name] := Leaf(content)];
    assert u == map[[dir] := Dir(None)];
    assert ExtractTo(empty, layer, 1) == Some(t) && ExtractTo(empty, layer, 2) == Some(u);
    assert LastPut(layer, [dir, name], 1) == Some(Leaf(content));
  }
}
