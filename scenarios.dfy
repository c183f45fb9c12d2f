/** Concrete situations the extractors are expected to handle, derived from the general
    lemmas of the other modules. */
module Scenarios {
  import opened Wrappers
  import opened Bytes
  import opened Paths
  import opened Region
  import opened B3dm
  import opened Tileset

  /** A 100-byte container (version 1, byteLength 100, a 20-byte feature table JSON and
      no other tables) followed by 52 bytes of GLB: the payload is bytes 48..100, and both
      readers return it. */
  lemma HundredByteContainer(featureTableJson: seq<Byte>, glb: seq<Byte>)
    requires |featureTableJson| == 20 && |glb| == 52
    ensures var h := Header(1, 100, 20, 0, 0, 0);
      var data := EncodeHeader(h) + featureTableJson + glb;
      && |data| == 100 && h.GlbOffset() == 48
      && data[48..100] == glb
      && ExtractGlbBytes(data) == Ok(glb)
      && ExtractB3dmGlb(data) == Ok(glb)
  {
    var h := Header(1, 100, 20, 0, 0, 0);
    var data := EncodeHeader(h) + featureTableJson + glb;
    ContainerRoundTrip(h, featureTableJson, glb, []);
    assert data + [] == data;
    assert data[48..100] == glb;
  }

  /** Walking a root without content and with two children walks the first child, then
      the second from the state the first left. */
  lemma RootOfTwo(env: Env, s: State, root: Tile, base: Path)
    requires UsableTree(root) && !HasRegion(root) && root.content.None? && |root.children| == 2
    ensures UsableTree(root.children[0]) && UsableTree(root.children[1])
    ensures WalkTile(env, s, root, base)
         == WalkTile(env, WalkTile(env, s, root.children[0], base), root.children[1], base)
  {
    var cs := root.children;
    assert cs[1..] == [cs[1]] && cs[1..][1..] == [];
    assert VisitContent(env, s, root, base) == s;
    var s1 := WalkTile(env, s, cs[0], base);
    assert WalkList(env, s1, [cs[1]], base) == WalkList(env, WalkTile(env, s1, cs[1], base), [], base);
  }

  /** A leaf's walk is its content visit. */
  lemma Leaf(env: Env, s: State, t: Tile, base: Path)
    requires RegionUsable(t) && t.children == []
    ensures UsableTree(t) && WalkTile(env, s, t, base) == VisitContent(env, s, t, base)
  {
  }

  /** A root without content whose first child intersects and references a readable
      b3dm, and whose second child lies outside the box and references a glb: the walk
      extracts exactly the first child's GLB; the second child's file is not copied. */
  lemma GatedSibling(env: Env, base: Path, root: Tile)
    requires UsableTree(root) && !HasRegion(root) && root.content.None? && |root.children| == 2
    requires root.children[0].children == [] && root.children[1].children == []
    requires RegionUsable(root.children[0]) && RegionUsable(root.children[1])
    requires Intersects(env, root.children[0]) && !Intersects(env, root.children[1])
    requires ContentRef(root.children[0]).Some? && ContentRef(root.children[1]).Some?
    requires var b := env.resolve(base, ContentRef(root.children[0]).value);
      b in env.files && IsB3dm(b) && ExtractGlbBytes(env.files[b]).Ok?
    requires var g := env.resolve(base, ContentRef(root.children[1]).value);
      g in env.files && IsGlbOrGltf(g)
    ensures var b := env.resolve(base, ContentRef(root.children[0]).value);
      WalkTile(env, Initial, root, base)
        == State({b}, 1, map[GlbName(b) := ExtractGlbBytes(env.files[b]).value])
  {
    var first, second := root.children[0], root.children[1];
    var b := env.resolve(base, ContentRef(first).value);
    var s1 := WalkTile(env, Initial, first, base);
    RootOfTwo(env, Initial, root, base);
    assert s1 == ProcessPath(env, Initial, b) by {
      Leaf(env, Initial, first, base);
    }
    assert s1 == State({b}, 1, map[GlbName(b) := ExtractGlbBytes(env.files[b]).value]) by {
      ProcessPathNew(env, Initial, b);
      assert Succeeds(env, b) && OutName(b) == GlbName(b);
    }
    assert WalkTile(env, s1, second, base) == s1 by {
      Leaf(env, s1, second, base);
    }
  }

  /** Two intersecting siblings that reference the same file: it is processed once, so
      it yields at most one output file and at most one count. */
  lemma DuplicateReference(env: Env, base: Path, root: Tile)
    requires UsableTree(root) && !HasRegion(root) && root.content.None? && |root.children| == 2
    requires root.children[0].children == [] && root.children[1].children == []
    requires RegionUsable(root.children[0]) && RegionUsable(root.children[1])
    requires Intersects(env, root.children[0]) && Intersects(env, root.children[1])
    requires ContentRef(root.children[0]).Some? && ContentRef(root.children[1]).Some?
    requires env.resolve(base, ContentRef(root.children[0]).value)
          == env.resolve(base, ContentRef(root.children[1]).value)
    requires Handled(env, env.resolve(base, ContentRef(root.children[0]).value))
    ensures var p := env.resolve(base, ContentRef(root.children[0]).value);
      var s := WalkTile(env, Initial, root, base);
      && s.processed == {p}
      && s.extracted == (if Succeeds(env, p) then 1 else 0)
      && s.outDir.Keys == (if Succeeds(env, p) then {OutName(p)} else {})
  {
    var first, second := root.children[0], root.children[1];
    var p := env.resolve(base, ContentRef(first).value);
    var s1 := WalkTile(env, Initial, first, base);
    RootOfTwo(env, Initial, root, base);
    assert s1 == ProcessPath(env, Initial, p) by {
      Leaf(env, Initial, first, base);
    }
    assert s1.processed == {p} && s1.extracted == (if Succeeds(env, p) then 1 else 0)
        && s1.outDir.Keys == (if Succeeds(env, p) then {OutName(p)} else {}) by {
      ProcessPathNew(env, Initial, p);
    }
    assert WalkTile(env, s1, second, base) == s1 by {
      Leaf(env, s1, second, base);
      ProcessPathSkips(env, s1, p);
    }
  }

  /** A node with a bounding volume but no usable content reference contributes nothing
      itself, yet all of its children are walked. */
  lemma ContentlessNodeWalksChildren(env: Env, s: State, t: Tile, base: Path)
    requires UsableTree(t) && ContentRef(t).None?
    ensures WalkTile(env, s, t, base) == WalkList(env, s, t.children, base)
    ensures TreeRefs(env, t, base) == ListRefs(env, t.children, base)
  {
  }

  /** A leaf over the crossing whose region is stored in radians and whose content is a
      handled file: the walk as written leaves it alone, the corrected walk processes it. */
  lemma RadianLeafOverShibuya(env: Env, s: State, t: Tile, base: Path)
    requires env.box == ShibuyaBox && t.children == []
    requires t.region == Some([Radians(139.70), Radians(35.65), Radians(139.71), Radians(35.66), 0.0, 100.0])
    requires ContentRef(t).Some? && Handled(env, env.resolve(base, ContentRef(t).value))
    ensures UsableTree(t)
    ensures var p := env.resolve(base, ContentRef(t).value);
      WalkTile(env, s, t, base).processed == if env.convertRadians then s.processed + {p} else s.processed
  {
    ShibuyaTileMissedAsWritten();
    Leaf(env, s, t, base);
    WalkTileAdds(env, s, t, base);
  }
}
