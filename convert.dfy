/** The conversion driver of g2h: find_files picks candidate files by suffix, and the
    main loop dispatches each on its lower-cased suffix, collecting the outputs that
    succeeded in `converted` and writing them into the models directory. */
module Convert {
  import opened Wrappers
  import opened Bytes
  import opened Paths
  import opened B3dm
  import Tileset

  /** The default extension list of find_files, also passed explicitly by main. */
  const Exts: seq<string> := [".glb", ".gltf", ".obj", ".ply", ".stl", ".fbx", ".b3dm"]

  function ExtsOrDefault(exts: Option<seq<string>>): seq<string> {
    match exts
    case None => Exts
    case Some(e) => e
  }

  /** The test find_files applies to a path: an existing file (directories are not keys
      of `fs`) whose lower-cased suffix is one of `exts`. */
  function Wanted(fs: map<Path, seq<Byte>>, exts: seq<string>): Path -> bool {
    p => p in fs && LowerSuffix(p) in exts
  }

  /** Keeps, in listing order, the entries of an rglob('*') listing that pass `keep`. */
  function Matching(keep: Path -> bool, listing: seq<Path>): seq<Path>
    decreases |listing|
  {
    if listing == [] then []
    else
      var p := listing[|listing| - 1];
      Matching(keep, listing[..|listing| - 1]) + (if keep(p) then [p] else [])
  }

  /** What find_files returns: a root that is a file yields itself or nothing; otherwise
      the matching entries of the recursive listing below it. */
  function Found(root: Path, fs: map<Path, seq<Byte>>, listing: seq<Path>, exts: Option<seq<string>>): seq<Path> {
    var keep := Wanted(fs, ExtsOrDefault(exts));
    if root in fs then (if keep(root) then [root] else [])
    else Matching(keep, listing)
  }

  /** find_files(root, exts) */
  method FindFiles(root: Path, fs: map<Path, seq<Byte>>, listing: seq<Path>, exts: Option<seq<string>>)
    returns (results: seq<Path>)
    ensures results == Found(root, fs, listing, exts)
  {
    var e := ExtsOrDefault(exts);
    ghost var keep := Wanted(fs, e);
    results := [];
    if root in fs {
      if LowerSuffix(root) in e {
        results := results + [root];
      }
      return;
    }
    for i := 0 to |listing|
      invariant results == Matching(keep, listing[..i])
    {
      assert listing[..i + 1][..i] == listing[..i];
      var p := listing[i];
      if p in fs && LowerSuffix(p) in e {
        results := results + [p];
      }
    }
    assert listing[..|listing|] == listing;
  }

  lemma {:induction false} MatchingMembers(keep: Path -> bool, listing: seq<Path>, p: Path)
    ensures p in Matching(keep, listing) <==> p in listing && keep(p)
    ensures |Matching(keep, listing)| <= |listing|
    decreases |listing|
  {
    if listing != [] {
      var init := listing[..|listing| - 1];
      MatchingMembers(keep, init, p);
      assert listing == init + [listing[|listing| - 1]];
    }
  }

  /** find_files returns exactly the existing files with a listed suffix: the root
      itself when it is a file, otherwise those in the listing below it. */
  lemma FoundMembers(root: Path, fs: map<Path, seq<Byte>>, listing: seq<Path>, exts: Option<seq<string>>, p: Path)
    ensures p in Found(root, fs, listing, exts) <==>
      && p in fs && LowerSuffix(p) in ExtsOrDefault(exts)
      && (if root in fs then p == root else p in listing)
    ensures root in fs ==> |Found(root, fs, listing, exts)| <= 1
  {
    MatchingMembers(Wanted(fs, ExtsOrDefault(exts)), listing, p);
  }

  /** The branch of main's loop that a lower-cased suffix selects. */
  datatype Handler = CopyAsIs | ExtractB3dm | MeshToGlb | Unsupported

  function HandlerFor(suffix: string): Handler {
    if suffix == ".glb" || suffix == ".gltf" then CopyAsIs
    else if suffix == ".b3dm" then ExtractB3dm
    else if suffix == ".obj" || suffix == ".ply" || suffix == ".stl" || suffix == ".fbx" then MeshToGlb
    else Unsupported
  }

  /** What one iteration of main's loop does with a file: the unsupported branch only
      warns; a handler that raises is caught and logged; otherwise the file written under
      models/ and appended to `converted`. */
  datatype FileOutcome = Skipped | Failed | Converted(name: string, glb: seq<Byte>)

  /** `convertMesh` stands for trimesh's load and export, None when either raises.
      A file that cannot be read makes every handler raise. */
  function Outcome(fs: map<Path, seq<Byte>>, convertMesh: (Path, seq<Byte>) -> Option<seq<Byte>>, f: Path): FileOutcome {
    match HandlerFor(LowerSuffix(f))
    case Unsupported => Skipped
    case CopyAsIs => if f in fs then Converted(Name(f), fs[f]) else Failed
    case ExtractB3dm =>
      if f !in fs then Failed
      else
        (match ExtractB3dmGlb(fs[f])
         case Ok(glb) => Converted(GlbName(f), glb)
         case Err(_) => Failed)
    case MeshToGlb =>
      if f !in fs then Failed
      else
        (match convertMesh(f, fs[f])
         case Some(glb) => Converted(GlbName(f), glb)
         case None => Failed)
  }

  /** Outcome with the file system and the mesh converter fixed. */
  function OutcomeOf(fs: map<Path, seq<Byte>>, convertMesh: (Path, seq<Byte>) -> Option<seq<Byte>>): Path -> FileOutcome {
    f => Outcome(fs, convertMesh, f)
  }

  /** The names appended to `converted`, in order, when file f turns out as o(f). */
  function ConvertedNames(o: Path -> FileOutcome, files: seq<Path>): seq<string>
    decreases |files|
  {
    if files == [] then []
    else
      var last := o(files[|files| - 1]);
      ConvertedNames(o, files[..|files| - 1]) + (if last.Converted? then [last.name] else [])
  }

  /** The models directory after the loop, starting from `models`. */
  function Written(o: Path -> FileOutcome, files: seq<Path>, models: map<string, seq<Byte>>): map<string, seq<Byte>>
    decreases |files|
  {
    if files == [] then models
    else
      var last := o(files[|files| - 1]);
      var before := Written(o, files[..|files| - 1], models);
      if last.Converted? then before[last.name := last.glb] else before
  }

  /** The body of the try block in main's loop, for one file. */
  method ConvertOne(fs: map<Path, seq<Byte>>, convertMesh: (Path, seq<Byte>) -> Option<seq<Byte>>, f: Path)
    returns (out: FileOutcome)
    ensures out == Outcome(fs, convertMesh, f) == OutcomeOf(fs, convertMesh)(f)
  {
    var suffix := LowerSuffix(f);
    out := Failed;
    if suffix in [".glb", ".gltf"] {
      if f in fs {
        out := Converted(Name(f), fs[f]);
      }
    } else if suffix == ".b3dm" {
      if f in fs {
        var r := ExtractB3dmGlb(fs[f]);
        if r.Ok? {
          out := Converted(GlbName(f), r.value);
        }
      }
    } else if suffix in [".obj", ".ply", ".stl", ".fbx"] {
      if f in fs {
        var r := convertMesh(f, fs[f]);
        if r.Some? {
          out := Converted(GlbName(f), r.value);
        }
      }
    } else {
      out := Skipped;
    }
  }

  /** One more file extends `converted` and the models directory by that file's outcome. */
  lemma ConvertStep(o: Path -> FileOutcome, files: seq<Path>, i: nat, models: map<string, seq<Byte>>)
    requires i < |files|
    ensures var last := o(files[i]);
      && ConvertedNames(o, files[..i + 1]) ==
           ConvertedNames(o, files[..i]) + (if last.Converted? then [last.name] else [])
      && Written(o, files[..i + 1], models) ==
           (if last.Converted? then Written(o, files[..i], models)[last.name := last.glb]
            else Written(o, files[..i], models))
  {
    assert files[..i + 1][..i] == files[..i];
  }

  /** The `for f in files` loop of main: every file is tried, a failure is only logged. */
  method ConvertAll(fs: map<Path, seq<Byte>>, convertMesh: (Path, seq<Byte>) -> Option<seq<Byte>>, files: seq<Path>,
                    models0: map<string, seq<Byte>>)
    returns (converted: seq<string>, models: map<string, seq<Byte>>)
    ensures converted == ConvertedNames(OutcomeOf(fs, convertMesh), files)
    ensures models == Written(OutcomeOf(fs, convertMesh), files, models0)
  {
    ghost var o := OutcomeOf(fs, convertMesh);
    converted, models := [], models0;
    for i := 0 to |files|
      invariant converted == ConvertedNames(o, files[..i])
      invariant models == Written(o, files[..i], models0)
    {
      var out := ConvertOne(fs, convertMesh, files[i]);
      ConvertStep(o, files, i, models0);
      if out.Converted? {
        models := models[out.name := out.glb];
        converted := converted + [out.name];
      }
    }
    assert files[..|files|] == files;
  }

  /** The loop treats files independently: whatever happened to earlier files, a later
      file is handled as if it came first. */
  lemma {:induction false} ConvertedAppend(o: Path -> FileOutcome, a: seq<Path>, b: seq<Path>, models: map<string, seq<Byte>>)
    ensures ConvertedNames(o, a + b) == ConvertedNames(o, a) + ConvertedNames(o, b)
    ensures Written(o, a + b, models) == Written(o, b, Written(o, a, models))
    decreases |b|
  {
    if b == [] {
      assert a + b == a;
    } else {
      var b' := b[..|b| - 1];
      ConvertedAppend(o, a, b', models);
      assert (a + b)[..|a + b| - 1] == a + b';
      assert (a + b)[|a + b| - 1] == b[|b| - 1];
    }
  }

  /** `converted` holds one entry per file whose handler succeeded, and nothing else. */
  lemma {:induction false} ConvertedExactly(o: Path -> FileOutcome, files: seq<Path>, n: string)
    ensures |ConvertedNames(o, files)| <= |files|
    ensures n in ConvertedNames(o, files) <==>
      exists i :: 0 <= i < |files| && o(files[i]).Converted? && o(files[i]).name == n
    decreases |files|
  {
    if files != [] {
      var init := files[..|files| - 1];
      ConvertedExactly(o, init, n);
      if exists i :: 0 <= i < |files| && o(files[i]).Converted? && o(files[i]).name == n {
        var i :| 0 <= i < |files| && o(files[i]).Converted? && o(files[i]).name == n;
        if i < |files| - 1 {
          assert init[i] == files[i];
        }
      }
      if exists i :: 0 <= i < |init| && o(init[i]).Converted? && o(init[i]).name == n {
        var i :| 0 <= i < |init| && o(init[i]).Converted? && o(init[i]).name == n;
        assert files[i] == init[i];
      }
    }
  }

  /** files[i] is converted, and no later file is converted under the same name. */
  predicate LastConvertedAs(o: Path -> FileOutcome, files: seq<Path>, i: nat)
    requires i < |files|
  {
    o(files[i]).Converted? &&
    forall j :: i < j < |files| ==> !(o(files[j]).Converted? && o(files[j]).name == o(files[i]).name)
  }

  /** The models directory gains exactly the converted names, and a name holds the output
      of the last file converted to it. */
  lemma {:induction false} WrittenContents(o: Path -> FileOutcome, files: seq<Path>, models: map<string, seq<Byte>>)
    ensures Written(o, files, models).Keys == models.Keys + set n | n in ConvertedNames(o, files)
    ensures forall i :: 0 <= i < |files| && LastConvertedAs(o, files, i) ==>
      o(files[i]).name in Written(o, files, models) && Written(o, files, models)[o(files[i]).name] == o(files[i]).glb
    decreases |files|
  {
    if files != [] {
      var init := files[..|files| - 1];
      WrittenContents(o, init, models);
      forall i | 0 <= i < |files| - 1
        ensures files[i] == init[i]
      {
      }
    }
  }

  /** A glb or gltf that is handled successfully is copied byte for byte under its own
      name. */
  lemma DispatchCopies(fs: map<Path, seq<Byte>>, convertMesh: (Path, seq<Byte>) -> Option<seq<Byte>>, f: Path)
    requires IsGlbOrGltf(f)
    ensures Outcome(fs, convertMesh, f).Converted? <==> f in fs
    ensures f in fs ==> Outcome(fs, convertMesh, f) == Converted(Name(f), fs[f])
  {
  }

  /** A b3dm is converted exactly when it exists and the strict reader accepts it, and
      then its payload is written as stem + ".glb"; otherwise the failure is caught. */
  lemma DispatchExtracts(fs: map<Path, seq<Byte>>, convertMesh: (Path, seq<Byte>) -> Option<seq<Byte>>, f: Path)
    requires LowerSuffix(f) == ".b3dm"
    ensures Outcome(fs, convertMesh, f).Converted? <==> f in fs && ExtractB3dmGlb(fs[f]).Ok?
    ensures Outcome(fs, convertMesh, f).Converted? ==>
      Outcome(fs, convertMesh, f) == Converted(GlbName(f), ExtractB3dmGlb(fs[f]).value)
    ensures !Outcome(fs, convertMesh, f).Converted? ==> Outcome(fs, convertMesh, f) == Failed
  {
  }

  /** A mesh file is converted exactly when it exists and the mesh converter succeeds on
      it, and then the converter's output is written as stem + ".glb". */
  lemma DispatchMeshes(fs: map<Path, seq<Byte>>, convertMesh: (Path, seq<Byte>) -> Option<seq<Byte>>, f: Path)
    requires LowerSuffix(f) in [".obj", ".ply", ".stl", ".fbx"]
    ensures Outcome(fs, convertMesh, f).Converted? <==> f in fs && convertMesh(f, fs[f]).Some?
    ensures Outcome(fs, convertMesh, f).Converted? ==>
      Outcome(fs, convertMesh, f) == Converted(GlbName(f), convertMesh(f, fs[f]).value)
    ensures !Outcome(fs, convertMesh, f).Converted? ==> Outcome(fs, convertMesh, f) == Failed
  {
    assert HandlerFor(LowerSuffix(f)) == MeshToGlb;
  }

  /** A b3dm or mesh file that is handled successfully is written as stem + ".glb": a name
      that differs from the input's, keeps its stem, and has the suffix ".glb". */
  lemma DispatchRenames(fs: map<Path, seq<Byte>>, convertMesh: (Path, seq<Byte>) -> Option<seq<Byte>>, f: Path)
    requires Outcome(fs, convertMesh, f).Converted? && !IsGlbOrGltf(f)
    ensures f in fs
    ensures Outcome(fs, convertMesh, f).name == GlbName(f)
    ensures Suffix(GlbName(f)) == ".glb" && Stem(GlbName(f)) == Stem(Name(f))
    ensures GlbName(f) != Name(f)
  {
    assert HandlerFor(LowerSuffix(f)) in {ExtractB3dm, MeshToGlb};
    LowerSuffixOf(f);
    GlbNameParts(f);
  }

  /** With the default extensions every file find_files reports has a handler, so the
      "unsupported" branch of main never runs on them. */
  lemma FoundAreSupported(root: Path, fs: map<Path, seq<Byte>>, listing: seq<Path>,
                          convertMesh: (Path, seq<Byte>) -> Option<seq<Byte>>, p: Path)
    requires p in Found(root, fs, listing, None)
    ensures HandlerFor(LowerSuffix(p)) != Unsupported
    ensures Outcome(fs, convertMesh, p) != Skipped
  {
    FoundMembers(root, fs, listing, None, p);
  }

  /** A b3dm that g2h converts is also extracted by the tileset walker, under the same
      output name; the bytes agree unless g2h wrote the empty slice that a byteLength at or
      before the payload offset gives. */
  lemma AgreesWithWalker(env: Tileset.Env, s: Tileset.State, p: Path, glb: seq<Byte>)
    requires IsB3dm(p) && p in env.files && p !in s.processed
    requires ExtractB3dmGlb(env.files[p]) == Ok(glb)
    ensures var w := Tileset.ProcessPath(env, s, p);
      && w.extracted == s.extracted + 1
      && GlbName(p) in w.outDir
      && (glb == w.outDir[GlbName(p)] || glb == [])
  {
    StrictAgreesWithLenient(env.files[p]);
  }
}
