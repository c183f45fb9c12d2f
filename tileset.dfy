/** The tileset walk of extract_shibuya_scramble.py and extract_b3dm_to_glb.py as
    functions over an already-parsed tile tree: the per-node content step, the pre-order
    walk, the manifest choice between `root` and `tiles`, and the loop over manifests.
    The filesystem is a map from resolved paths to bytes, path resolution is a parameter,
    and the output directory is a map from file names to bytes. */
module Tileset {
  import opened Wrappers
  import opened Bytes
  import opened Paths
  import opened Region
  import opened B3dm

  /** A tile's `content` object: its `uri` member and the legacy `url` member. */
  datatype Content = Content(uri: Option<string>, url: Option<string>)

  /** A tile: `boundingVolume.region` (None when either is absent), `content` (None when
      absent or an empty object) and `children` (empty when absent). */
  datatype Tile = Tile(region: Option<seq<real>>, content: Option<Content>, children: seq<Tile>)

  /** One tileset.json: unparsable, or its `root` (None when absent or falsy) and its
      legacy top-level `tiles` list (empty when absent). */
  datatype Manifest = Unparsable | Parsed(root: Option<Tile>, tiles: seq<Tile>)

  /** A manifest together with the directory it was found in (ts_path.parent). */
  datatype TilesetFile = TilesetFile(dir: Path, manifest: Manifest)

  /** What one run works against: the target box, which region test is used, the
      existing files, and the resolution of a content reference against a base directory
      ((base_path / uri).resolve()). With `convertRadians` false the walk is the scripts'
      own: bbox_intersect on the raw region. With it true the walk is the corrected
      program, which converts the region from radians to degrees first. */
  datatype Env = Env(box: Box, convertRadians: bool, files: map<Path, seq<Byte>>, resolve: (Path, string) -> Path)

  /** The walk's mutable state: processed_files, extracted, and the output directory. */
  datatype State = State(processed: set<Path>, extracted: nat, outDir: map<string, seq<Byte>>)

  const Initial: State := State({}, 0, map[])

  // ---------------------------------------------------------------- one node

  /** `if region:` is true for a present, non-empty list. */
  predicate HasRegion(t: Tile) {
    t.region.Some? && |t.region.value| > 0
  }

  /** A non-empty region shorter than four entries makes region[3] raise IndexError,
      which nothing catches; the model walks only trees without such regions. */
  predicate RegionUsable(t: Tile) {
    HasRegion(t) ==> |t.region.value| >= 4
  }

  /** Absent or empty regions count as intersecting. A region is tested with
      bbox_intersect as written, or with the corrected BboxIntersectRadians when the
      environment asks for it. */
  predicate Intersects(env: Env, t: Tile)
    requires RegionUsable(t)
  {
    !HasRegion(t)
    || (if env.convertRadians then BboxIntersectRadians(t.region.value, env.box)
        else BboxIntersect(t.region.value, env.box))
  }

  predicate NonEmpty(s: Option<string>) {
    s.Some? && s.value != ""
  }

  /** content.get("uri") or content.get("url"), for a truthy content. */
  function ContentRef(t: Tile): (r: Option<string>)
    ensures r.Some? <==> t.content.Some? && (NonEmpty(t.content.value.uri) || NonEmpty(t.content.value.url))
    ensures r.Some? ==> r.value != ""
    ensures r.Some? && NonEmpty(t.content.value.uri) ==> r == t.content.value.uri
    ensures t.content.Some? && !NonEmpty(t.content.value.uri) && NonEmpty(t.content.value.url) ==>
      r == t.content.value.url
  {
    match t.content
    case None => None
    case Some(c) =>
      if NonEmpty(c.uri) then c.uri
      else if NonEmpty(c.url) then c.url
      else None
  }

  /** One resolved path: skipped when it does not exist; otherwise a `.b3dm` not yet
      processed is marked processed before it is read, and its GLB is written as
      stem + ".glb" and counted only when extraction succeeds; a `.glb`/`.gltf` not yet
      processed is marked, copied under its own name and counted; any other suffix is
      ignored. */
  function ProcessPath(env: Env, s: State, p: Path): State {
    if p !in env.files then s
    else if IsB3dm(p) then
      if p in s.processed then s
      else
        var s1 := s.(processed := s.processed + {p});
        match ExtractGlbBytes(env.files[p])
        case Ok(glb) => s1.(extracted := s1.extracted + 1, outDir := s1.outDir[GlbName(p) := glb])
        case Err(_) => s1
    else if IsGlbOrGltf(p) then
      if p in s.processed then s
      else s.(processed := s.processed + {p}, extracted := s.extracted + 1,
              outDir := s.outDir[Name(p) := env.files[p]])
    else s
  }

  /** The content part of process_tile: only an intersecting node with a content
      reference touches the state. */
  function VisitContent(env: Env, s: State, t: Tile, base: Path): State
    requires RegionUsable(t)
  {
    if !Intersects(env, t) then s
    else match ContentRef(t)
      case None => s
      case Some(uri) => ProcessPath(env, s, env.resolve(base, uri))
  }

  // ---------------------------------------------------------------- the walk

  predicate UsableTree(t: Tile) {
    RegionUsable(t) && UsableList(t.children)
  }

  predicate UsableList(ts: seq<Tile>) {
    ts == [] || (UsableTree(ts[0]) && UsableList(ts[1..]))
  }

  predicate UsableManifest(m: Manifest) {
    m.Parsed? ==> if m.root.Some? then UsableTree(m.root.value) else UsableList(m.tiles)
  }

  predicate UsableFiles(fs: seq<TilesetFile>) {
    forall i :: 0 <= i < |fs| ==> UsableManifest(fs[i].manifest)
  }

  /** process_tile: the node's own content, then every child in order with the same base. */
  function WalkTile(env: Env, s: State, t: Tile, base: Path): State
    requires UsableTree(t)
    decreases t
  {
    WalkList(env, VisitContent(env, s, t, base), t.children, base)
  }

  function WalkList(env: Env, s: State, ts: seq<Tile>, base: Path): State
    requires UsableList(ts)
    decreases ts
  {
    if ts == [] then s else WalkList(env, WalkTile(env, s, ts[0], base), ts[1..], base)
  }

  /** One manifest: skipped when unparsable; a truthy root is walked, otherwise each
      element of `tiles`; the base is the manifest's directory. */
  function WalkManifest(env: Env, s: State, f: TilesetFile): State
    requires UsableManifest(f.manifest)
  {
    match f.manifest
    case Unparsable => s
    case Parsed(root, tiles) =>
      if root.Some? then WalkTile(env, s, root.value, f.dir) else WalkList(env, s, tiles, f.dir)
  }

  /** The loop over every tileset.json found. */
  function WalkFiles(env: Env, s: State, fs: seq<TilesetFile>): State
    requires UsableFiles(fs)
    decreases fs
  {
    if fs == [] then s else WalkFiles(env, WalkManifest(env, s, fs[0]), fs[1..])
  }

  // ---------------------------------------------------------------- reference sets

  /** The resolved path exists and has one of the suffixes the walk handles. */
  predicate Handled(env: Env, p: Path) {
    p in env.files && (IsB3dm(p) || IsGlbOrGltf(p))
  }

  /** A handled path yields an output: always for .glb/.gltf, for .b3dm when the header
      is accepted. */
  predicate Succeeds(env: Env, p: Path) {
    p in env.files && (IsGlbOrGltf(p) || (IsB3dm(p) && ExtractGlbBytes(env.files[p]).Ok?))
  }

  /** The output file name a handled path is written under. */
  function OutName(p: Path): string {
    if IsB3dm(p) then GlbName(p) else Name(p)
  }

  /** The bytes written for a path that succeeds. */
  function Payload(env: Env, p: Path): seq<Byte>
    requires Succeeds(env, p)
  {
    if IsB3dm(p) then ExtractGlbBytes(env.files[p]).value else env.files[p]
  }

  /** The path a node contributes, independently of what was processed before. */
  function OwnRef(env: Env, t: Tile, base: Path): set<Path>
    requires RegionUsable(t)
  {
    if Intersects(env, t) && ContentRef(t).Some? && Handled(env, env.resolve(base, ContentRef(t).value))
    then {env.resolve(base, ContentRef(t).value)} else {}
  }

  /** Every path referenced by an intersecting node of the tree that the walk handles. */
  function TreeRefs(env: Env, t: Tile, base: Path): set<Path>
    requires UsableTree(t)
    decreases t
  {
    OwnRef(env, t, base) + ListRefs(env, t.children, base)
  }

  function ListRefs(env: Env, ts: seq<Tile>, base: Path): set<Path>
    requires UsableList(ts)
    decreases ts
  {
    if ts == [] then {} else TreeRefs(env, ts[0], base) + ListRefs(env, ts[1..], base)
  }

  function ManifestRefs(env: Env, f: TilesetFile): set<Path>
    requires UsableManifest(f.manifest)
  {
    match f.manifest
    case Unparsable => {}
    case Parsed(root, tiles) =>
      if root.Some? then TreeRefs(env, root.value, f.dir) else ListRefs(env, tiles, f.dir)
  }

  function FilesRefs(env: Env, fs: seq<TilesetFile>): set<Path>
    requires UsableFiles(fs)
  {
    if fs == [] then {} else ManifestRefs(env, fs[0]) + FilesRefs(env, fs[1..])
  }

  /** What the bookkeeping needs to know of a path: whether processing it yields an
      output, the output's file name and its bytes. */
  datatype Outcomes = Outcomes(succeeds: Path -> bool, name: Path -> string, payload: Path -> seq<Byte>)

  function OutcomesOf(env: Env): Outcomes {
    Outcomes(p => Succeeds(env, p), OutName, p => if Succeeds(env, p) then Payload(env, p) else [])
  }

  function Successful(o: Outcomes, ps: set<Path>): set<Path> {
    set p | p in ps && o.succeeds(p)
  }

  function OutNames(o: Outcomes, ps: set<Path>): set<string> {
    set p | p in Successful(o, ps) :: o.name(p)
  }

  // ---------------------------------------------------------------- accounting

  /** s1 follows from s0 by processing exactly the paths s1 added: one count per added
      path that succeeds, an output file for each of those, nothing else touched. */
  ghost predicate Accounts(o: Outcomes, s0: State, s1: State) {
    && s0.processed <= s1.processed
    && s1.extracted == s0.extracted + |Successful(o, s1.processed - s0.processed)|
    && OutputsAccounted(o, s0.outDir, s1.outDir, s1.processed - s0.processed)
  }

  /** out1 is out0 plus one file per output name of the added paths that succeed, each
      holding the payload of such a path; other files are untouched. */
  ghost predicate OutputsAccounted(o: Outcomes, out0: map<string, seq<Byte>>, out1: map<string, seq<Byte>>, added: set<Path>) {
    && out1.Keys == out0.Keys + OutNames(o, added)
    && (forall k :: k in out0 && k !in OutNames(o, added) ==> out1[k] == out0[k])
    && (forall k :: k in OutNames(o, added) ==>
          exists p :: p in Successful(o, added) && o.name(p) == k && out1[k] == o.payload(p))
  }

  lemma AccountsRefl(o: Outcomes, s: State)
    ensures Accounts(o, s, s)
  {
    assert s.processed - s.processed == {};
    assert Successful(o, {}) == {};
  }

  lemma SuccessfulUnion(o: Outcomes, xs: set<Path>, ys: set<Path>)
    requires xs !! ys
    ensures Successful(o, xs + ys) == Successful(o, xs) + Successful(o, ys)
    ensures |Successful(o, xs + ys)| == |Successful(o, xs)| + |Successful(o, ys)|
    ensures OutNames(o, xs + ys) == OutNames(o, xs) + OutNames(o, ys)
  {
    assert Successful(o, xs + ys) == Successful(o, xs) + Successful(o, ys);
    assert Successful(o, xs) !! Successful(o, ys);
  }

  lemma OutputsTrans(o: Outcomes, o0: map<string, seq<Byte>>, o1: map<string, seq<Byte>>,
                     o2: map<string, seq<Byte>>, xs: set<Path>, ys: set<Path>)
    requires xs !! ys
    requires OutputsAccounted(o, o0, o1, xs) && OutputsAccounted(o, o1, o2, ys)
    ensures OutputsAccounted(o, o0, o2, xs + ys)
  {
    SuccessfulUnion(o, xs, ys);
    assert o2.Keys == o0.Keys + OutNames(o, xs + ys);
    forall k | k in o0 && k !in OutNames(o, xs + ys)
      ensures o2[k] == o0[k]
    {
      assert k in o1 && k !in OutNames(o, xs) && k !in OutNames(o, ys);
    }
    forall k | k in OutNames(o, xs + ys)
      ensures exists p :: p in Successful(o, xs + ys) && o.name(p) == k && o2[k] == o.payload(p)
    {
      if k in OutNames(o, ys) {
        var p :| p in Successful(o, ys) && o.name(p) == k && o2[k] == o.payload(p);
        assert p in Successful(o, xs + ys);
      } else {
        assert k in OutNames(o, xs) && k in o1 && o2[k] == o1[k];
        var p :| p in Successful(o, xs) && o.name(p) == k && o1[k] == o.payload(p);
        assert p in Successful(o, xs + ys);
      }
    }
  }

  lemma {:induction false} AccountsTrans(o: Outcomes, a: State, b: State, c: State)
    requires Accounts(o, a, b) && Accounts(o, b, c)
    ensures Accounts(o, a, c)
  {
    var ab, bc := b.processed - a.processed, c.processed - b.processed;
    assert c.processed - a.processed == ab + bc && ab !! bc;
    SuccessfulUnion(o, ab, bc);
    OutputsTrans(o, a.outDir, b.outDir, c.outDir, ab, bc);
  }

  /** Adding one new path: counted and written when it succeeds, only marked otherwise. */
  lemma AccountsOne(o: Outcomes, s: State, s': State, p: Path)
    requires p !in s.processed && s'.processed == s.processed + {p}
    requires o.succeeds(p) ==>
      s'.extracted == s.extracted + 1 && s'.outDir == s.outDir[o.name(p) := o.payload(p)]
    requires !o.succeeds(p) ==> s'.extracted == s.extracted && s'.outDir == s.outDir
    ensures Accounts(o, s, s')
  {
    assert s'.processed - s.processed == {p};
    SuccessfulOne(o, p);
    OutputsOne(o, s.outDir, s'.outDir, p);
  }

  lemma SuccessfulOne(o: Outcomes, p: Path)
    ensures Successful(o, {p}) == if o.succeeds(p) then {p} else {}
    ensures |Successful(o, {p})| == if o.succeeds(p) then 1 else 0
    ensures OutNames(o, {p}) == if o.succeeds(p) then {o.name(p)} else {}
  {
  }

  lemma OutputsOne(o: Outcomes, out0: map<string, seq<Byte>>, out1: map<string, seq<Byte>>, p: Path)
    requires o.succeeds(p) ==> out1 == out0[o.name(p) := o.payload(p)]
    requires !o.succeeds(p) ==> out1 == out0
    ensures OutputsAccounted(o, out0, out1, {p})
  {
    SuccessfulOne(o, p);
    if o.succeeds(p) {
      assert p in Successful(o, {p});
    }
  }

  /** A path already processed, missing, or with another suffix leaves the state alone. */
  lemma ProcessPathSkips(env: Env, s: State, p: Path)
    requires !Handled(env, p) || p in s.processed
    ensures ProcessPath(env, s, p) == s
  {
  }

  /** A new handled path is marked processed; it is counted and written exactly when it
      succeeds. */
  lemma ProcessPathNew(env: Env, s: State, p: Path)
    requires Handled(env, p) && p !in s.processed
    ensures var s' := ProcessPath(env, s, p);
      && s'.processed == s.processed + {p}
      && (Succeeds(env, p) ==> s'.extracted == s.extracted + 1 && s'.outDir == s.outDir[OutName(p) := Payload(env, p)])
      && (!Succeeds(env, p) ==> s'.extracted == s.extracted && s'.outDir == s.outDir)
  {
    if IsB3dm(p) {
      assert LowerSuffix(p) == ".b3dm";
      assert !IsGlbOrGltf(p);
    }
  }

  /** One resolved path is processed at most once: it is added (when it exists and has a
      handled suffix) and accounted for, or the state is left as it was. */
  lemma ProcessPathAccounts(env: Env, s: State, p: Path)
    ensures var s' := ProcessPath(env, s, p);
      && s'.processed == s.processed + (if Handled(env, p) then {p} else {})
      && Accounts(OutcomesOf(env), s, s')
    ensures p in s.processed ==> ProcessPath(env, s, p) == s
  {
    if !Handled(env, p) || p in s.processed {
      ProcessPathSkips(env, s, p);
      AccountsRefl(OutcomesOf(env), s);
    } else {
      ProcessPathNew(env, s, p);
      var o := OutcomesOf(env);
      assert o.succeeds(p) == Succeeds(env, p) && o.name(p) == OutName(p);
      assert Succeeds(env, p) ==> o.payload(p) == Payload(env, p);
      AccountsOne(o, s, ProcessPath(env, s, p), p);
    }
  }

  lemma VisitContentAccounts(env: Env, s: State, t: Tile, base: Path)
    requires RegionUsable(t)
    ensures var s' := VisitContent(env, s, t, base);
      s'.processed == s.processed + OwnRef(env, t, base) && Accounts(OutcomesOf(env), s, s')
  {
    if Intersects(env, t) && ContentRef(t).Some? {
      var p := env.resolve(base, ContentRef(t).value);
      assert VisitContent(env, s, t, base) == ProcessPath(env, s, p);
      assert OwnRef(env, t, base) == if Handled(env, p) then {p} else {};
      ProcessPathAccounts(env, s, p);
    } else {
      assert VisitContent(env, s, t, base) == s && OwnRef(env, t, base) == {};
      AccountsRefl(OutcomesOf(env), s);
    }
  }

  /** The walk adds exactly the tree's reference set to processed_files, and accounts
      for every path it adds. */
  lemma {:induction false} WalkTileAccounts(env: Env, s: State, t: Tile, base: Path)
    requires UsableTree(t)
    ensures var s' := WalkTile(env, s, t, base);
      s'.processed == s.processed + TreeRefs(env, t, base) && Accounts(OutcomesOf(env), s, s')
    decreases t
  {
    var s1 := VisitContent(env, s, t, base);
    VisitContentAccounts(env, s, t, base);
    WalkListAccounts(env, s1, t.children, base);
    AccountsTrans(OutcomesOf(env), s, s1, WalkTile(env, s, t, base));
  }

  lemma {:induction false} WalkListAccounts(env: Env, s: State, ts: seq<Tile>, base: Path)
    requires UsableList(ts)
    ensures var s' := WalkList(env, s, ts, base);
      s'.processed == s.processed + ListRefs(env, ts, base) && Accounts(OutcomesOf(env), s, s')
    decreases ts
  {
    if ts == [] {
      AccountsRefl(OutcomesOf(env), s);
    } else {
      var o := OutcomesOf(env);
      var s1 := WalkTile(env, s, ts[0], base);
      var s2 := WalkList(env, s1, ts[1..], base);
      assert s1.processed == s.processed + TreeRefs(env, ts[0], base) && Accounts(o, s, s1) by {
        WalkTileAccounts(env, s, ts[0], base);
      }
      assert s2.processed == s1.processed + ListRefs(env, ts[1..], base) && Accounts(o, s1, s2) by {
        WalkListAccounts(env, s1, ts[1..], base);
      }
      AccountsTrans(o, s, s1, s2);
    }
  }

  lemma WalkManifestAccounts(env: Env, s: State, f: TilesetFile)
    requires UsableManifest(f.manifest)
    ensures var s' := WalkManifest(env, s, f);
      s'.processed == s.processed + ManifestRefs(env, f) && Accounts(OutcomesOf(env), s, s')
  {
    match f.manifest
    case Unparsable => AccountsRefl(OutcomesOf(env), s);
    case Parsed(root, tiles) =>
      if root.Some? {
        WalkTileAccounts(env, s, root.value, f.dir);
      } else {
        WalkListAccounts(env, s, tiles, f.dir);
      }
  }

  lemma {:induction false} WalkFilesAccounts(env: Env, s: State, fs: seq<TilesetFile>)
    requires UsableFiles(fs)
    decreases fs
    ensures var s' := WalkFiles(env, s, fs);
      s'.processed == s.processed + FilesRefs(env, fs) && Accounts(OutcomesOf(env), s, s')
  {
    if fs == [] {
      AccountsRefl(OutcomesOf(env), s);
    } else {
      var o := OutcomesOf(env);
      var s1 := WalkManifest(env, s, fs[0]);
      assert UsableFiles(fs[1..]) by {
        forall i | 0 <= i < |fs[1..]| ensures UsableManifest(fs[1..][i].manifest) {
          assert fs[1..][i] == fs[i + 1];
        }
      }
      var s2 := WalkFiles(env, s1, fs[1..]);
      assert s1.processed == s.processed + ManifestRefs(env, fs[0]) && Accounts(o, s, s1) by {
        WalkManifestAccounts(env, s, fs[0]);
      }
      assert s2.processed == s1.processed + FilesRefs(env, fs[1..]) && Accounts(o, s1, s2) by {
        WalkFilesAccounts(env, s1, fs[1..]);
      }
      AccountsTrans(o, s, s1, s2);
    }
  }

  /** A whole run from empty state: processed_files is the set of handled paths that
      intersecting nodes of parsable manifests reference; extracted counts exactly those
      of them that produced an output, so it never exceeds the number of distinct paths;
      the output directory holds one file per output name, each the payload of a path
      with that name. */
  lemma RunOutcome(env: Env, fs: seq<TilesetFile>)
    requires UsableFiles(fs)
    ensures var s := WalkFiles(env, Initial, fs);
      && s.processed == FilesRefs(env, fs)
      && s.extracted == |Successful(OutcomesOf(env), FilesRefs(env, fs))|
      && s.extracted <= |s.processed|
      && s.outDir.Keys == OutNames(OutcomesOf(env), FilesRefs(env, fs))
      && (forall k :: k in s.outDir ==>
            exists p :: p in s.processed && Succeeds(env, p) && OutName(p) == k && s.outDir[k] == Payload(env, p))
  {
    var s := WalkFiles(env, Initial, fs);
    WalkFilesAccounts(env, Initial, fs);
    assert s.processed - Initial.processed == s.processed;
    var succ := Successful(OutcomesOf(env), s.processed);
    assert s.processed == succ + (s.processed - succ);
    assert |s.processed| == |succ| + |s.processed - succ|;
  }

  /** Walking a tree whose references are all processed already changes nothing: a
      path is never extracted, copied or counted twice. */
  lemma {:induction false} WalkTileProcessedNoop(env: Env, s: State, t: Tile, base: Path)
    requires UsableTree(t) && TreeRefs(env, t, base) <= s.processed
    ensures WalkTile(env, s, t, base) == s
    decreases t
  {
    assert VisitContent(env, s, t, base) == s by {
      if Intersects(env, t) && ContentRef(t).Some? {
        var p := env.resolve(base, ContentRef(t).value);
        if Handled(env, p) {
          assert p in OwnRef(env, t, base);
        }
      }
    }
    WalkListProcessedNoop(env, s, t.children, base);
  }

  lemma {:induction false} WalkListProcessedNoop(env: Env, s: State, ts: seq<Tile>, base: Path)
    requires UsableList(ts) && ListRefs(env, ts, base) <= s.processed
    ensures WalkList(env, s, ts, base) == s
    decreases ts
  {
    if ts != [] {
      WalkTileProcessedNoop(env, s, ts[0], base);
      WalkListProcessedNoop(env, s, ts[1..], base);
    }
  }

  /** Walking the same tree twice is walking it once. */
  lemma WalkTileIdempotent(env: Env, s: State, t: Tile, base: Path)
    requires UsableTree(t)
    ensures WalkTile(env, WalkTile(env, s, t, base), t, base) == WalkTile(env, s, t, base)
  {
    assert TreeRefs(env, t, base) <= WalkTile(env, s, t, base).processed by {
      WalkTileAccounts(env, s, t, base);
    }
    WalkTileProcessedNoop(env, WalkTile(env, s, t, base), t, base);
  }

  /** The paths a walk adds are the node's own reference and its children's. */
  lemma WalkTileAdds(env: Env, s: State, t: Tile, base: Path)
    requires UsableTree(t)
    ensures WalkTile(env, s, t, base).processed == s.processed + OwnRef(env, t, base) + ListRefs(env, t.children, base)
  {
    WalkTileAccounts(env, s, t, base);
  }

  /** Intersection gates a node's own content and nothing else: a node that does not
      intersect adds exactly its children's paths. */
  lemma NonIntersectingAddsOnlyChildren(env: Env, s: State, t: Tile, base: Path)
    requires UsableTree(t) && !Intersects(env, t)
    ensures WalkTile(env, s, t, base).processed == s.processed + ListRefs(env, t.children, base)
  {
    WalkTileAdds(env, s, t, base);
  }

  /** Every node of the tree carries a region as 3D Tiles 1.0 stores it, in radians, so
      its east longitude is at most pi. */
  predicate RadianRegions(t: Tile)
    decreases t
  {
    && HasRegion(t) && |t.region.value| >= 4 && t.region.value[2] <= Pi
    && forall c :: c in t.children ==> RadianRegions(c)
  }

  /** As written, the Shibuya walk of a tree whose every node carries a conforming region
      references nothing: no node passes bbox_intersect. */
  lemma {:induction false} AsWrittenReferencesNothing(env: Env, t: Tile, base: Path)
    requires !env.convertRadians && env.box == ShibuyaBox
    requires UsableTree(t) && RadianRegions(t)
    ensures TreeRefs(env, t, base) == {}
    decreases t
  {
    RadianRegionMissesShibuya(t.region.value);
    assert OwnRef(env, t, base) == {};
    AsWrittenListReferencesNothing(env, t.children, base);
  }

  lemma {:induction false} AsWrittenListReferencesNothing(env: Env, ts: seq<Tile>, base: Path)
    requires !env.convertRadians && env.box == ShibuyaBox
    requires UsableList(ts) && forall c :: c in ts ==> RadianRegions(c)
    ensures ListRefs(env, ts, base) == {}
    decreases ts
  {
    if ts != [] {
      assert ts[0] in ts;
      AsWrittenReferencesNothing(env, ts[0], base);
      AsWrittenListReferencesNothing(env, ts[1..], base);
    }
  }

  /** Hence the walk as written extracts, copies and counts nothing from such a tree. */
  lemma AsWrittenWalkChangesNothing(env: Env, s: State, t: Tile, base: Path)
    requires !env.convertRadians && env.box == ShibuyaBox
    requires UsableTree(t) && RadianRegions(t)
    ensures WalkTile(env, s, t, base) == s
  {
    AsWrittenReferencesNothing(env, t, base);
    WalkTileProcessedNoop(env, s, t, base);
  }

  /** A node without a region always has its handled content reference processed. */
  lemma RegionlessContentProcessed(env: Env, s: State, t: Tile, base: Path)
    requires UsableTree(t) && !HasRegion(t)
    requires ContentRef(t).Some? && Handled(env, env.resolve(base, ContentRef(t).value))
    ensures env.resolve(base, ContentRef(t).value) in WalkTile(env, s, t, base).processed
  {
    WalkTileAdds(env, s, t, base);
  }

  /** Every child's paths are collected, with the same base directory, whether or not the
      node intersects. */
  lemma ChildrenAlwaysWalked(env: Env, s: State, t: Tile, base: Path)
    requires UsableTree(t)
    ensures forall i :: 0 <= i < |t.children| ==>
      UsableTree(t.children[i]) && TreeRefs(env, t.children[i], base) <= WalkTile(env, s, t, base).processed
  {
    WalkTileAdds(env, s, t, base);
    ListRefsCover(env, t.children, base);
  }

  lemma {:induction false} ListRefsCover(env: Env, ts: seq<Tile>, base: Path)
    requires UsableList(ts)
    ensures forall i :: 0 <= i < |ts| ==> UsableTree(ts[i]) && TreeRefs(env, ts[i], base) <= ListRefs(env, ts, base)
  {
    if ts != [] {
      ListRefsCover(env, ts[1..], base);
      assert forall i :: 1 <= i < |ts| ==> ts[i] == ts[1..][i - 1];
    }
  }
}
