/** The walker as the scripts run it: `processed_files`/`processed`, the `extracted`
    counter and the output directory are state that process_tile updates in place while
    it recurses over `children`; the loop over tileset.json files drives it. Each method
    is proved to leave exactly the state that the functions of module Tileset describe. */
module Extractor {
  import opened Wrappers
  import opened Bytes
  import opened Paths
  import opened Region
  import opened B3dm
  import opened Tileset

  class TileExtractor {
    /** TARGET_BBOX */
    const target: Box
    /** Whether regions go through the corrected test (see Tileset.Env). */
    const convertRadians: bool
    /** The files that exist, by resolved path. */
    const files: map<Path, seq<Byte>>
    /** (base_path / uri).resolve() */
    const resolve: (Path, string) -> Path

    var processed: set<Path>
    var extracted: nat
    /** OUT_DIR: file name to contents. */
    var outDir: map<string, seq<Byte>>

    function Environment(): Env {
      Env(target, convertRadians, files, resolve)
    }

    function Current(): State
      reads this
    {
      State(processed, extracted, outDir)
    }

    /** `extracted = 0` and `processed_files = set()` before the loop, with an empty
        output directory. */
    constructor (target: Box, convertRadians: bool, files: map<Path, seq<Byte>>, resolve: (Path, string) -> Path)
      ensures this.target == target && this.convertRadians == convertRadians
      ensures this.files == files && this.resolve == resolve
      ensures Current() == Initial
    {
      this.target := target;
      this.convertRadians := convertRadians;
      this.files := files;
      this.resolve := resolve;
      processed := {};
      extracted := 0;
      outDir := map[];
    }

    /** The handling of one resolved content path inside process_tile. */
    method ProcessPath(p: Path)
      modifies this
      ensures Current() == Tileset.ProcessPath(Environment(), old(Current()), p)
    {
      if p in files {
        if IsB3dm(p) {
          if p !in processed {
            processed := processed + {p};
            var result := ExtractGlbBytes(files[p]);
            if result.Ok? {
              outDir := outDir[GlbName(p) := result.value];
              extracted := extracted + 1;
            }
          }
        } else if IsGlbOrGltf(p) {
          if p !in processed {
            processed := processed + {p};
            outDir := outDir[Name(p) := files[p]];
            extracted := extracted + 1;
          }
        }
      }
    }

    /** process_tile(tile, base_path) */
    method ProcessTile(tile: Tile, base: Path)
      requires UsableTree(tile)
      modifies this
      ensures Current() == WalkTile(Environment(), old(Current()), tile, base)
      decreases tile
    {
      var intersects := true;
      if tile.region.Some? && |tile.region.value| > 0 {
        if convertRadians {
          intersects := BboxIntersectRadians(tile.region.value, target);
        } else {
          intersects := BboxIntersect(tile.region.value, target);
        }
      }
      if intersects && tile.content.Some? {
        var uri := ContentRef(tile);
        if uri.Some? {
          ProcessPath(resolve(base, uri.value));
        }
      }
      ghost var visited := Current();
      assert visited == VisitContent(Environment(), old(Current()), tile, base);
      var children := tile.children;
      for i := 0 to |children|
        invariant UsableList(children[i..])
        invariant WalkList(Environment(), Current(), children[i..], base)
               == WalkList(Environment(), visited, children, base)
      {
        assert children[i..][0] == children[i] && children[i..][1..] == children[i + 1..];
        ProcessTile(children[i], base);
      }
    }

    /** The body of the loop over tileset.json files: an unparsable manifest is skipped,
        a truthy `root` is walked, otherwise every element of `tiles`. */
    method ProcessManifest(f: TilesetFile)
      requires UsableManifest(f.manifest)
      modifies this
      ensures Current() == WalkManifest(Environment(), old(Current()), f)
    {
      match f.manifest {
        case Unparsable =>
        case Parsed(root, tiles) =>
          if root.Some? {
            ProcessTile(root.value, f.dir);
          } else {
            for i := 0 to |tiles|
              invariant UsableList(tiles[i..])
              invariant WalkList(Environment(), Current(), tiles[i..], f.dir)
                     == WalkList(Environment(), old(Current()), tiles, f.dir)
            {
              assert tiles[i..][0] == tiles[i] && tiles[i..][1..] == tiles[i + 1..];
              ProcessTile(tiles[i], f.dir);
            }
          }
      }
    }

    /** The loop over every tileset.json found under the dataset root. */
    method ProcessAll(tilesets: seq<TilesetFile>)
      requires UsableFiles(tilesets)
      modifies this
      ensures Current() == WalkFiles(Environment(), old(Current()), tilesets)
    {
      for i := 0 to |tilesets|
        invariant UsableFiles(tilesets[i..])
        invariant WalkFiles(Environment(), Current(), tilesets[i..])
               == WalkFiles(Environment(), old(Current()), tilesets)
      {
        assert tilesets[i..][0] == tilesets[i] && tilesets[i..][1..] == tilesets[i + 1..];
        ProcessManifest(tilesets[i]);
      }
    }
  }

  /** A whole run: a fresh extractor over all manifests ends with processed_files equal to
      the handled paths that intersecting nodes of parsable manifests reference, and with
      `extracted` equal to the number of those that produced an output. */
  method Run(target: Box, convertRadians: bool, files: map<Path, seq<Byte>>, resolve: (Path, string) -> Path,
             tilesets: seq<TilesetFile>) returns (extracted: nat, outDir: map<string, seq<Byte>>)
    requires UsableFiles(tilesets)
    ensures var env := Env(target, convertRadians, files, resolve);
      && extracted == |Successful(OutcomesOf(env), FilesRefs(env, tilesets))|
      && outDir.Keys == OutNames(OutcomesOf(env), FilesRefs(env, tilesets))
  {
    var x := new TileExtractor(target, convertRadians, files, resolve);
    x.ProcessAll(tilesets);
    RunOutcome(x.Environment(), tilesets);
    extracted, outDir := x.extracted, x.outDir;
  }
}
