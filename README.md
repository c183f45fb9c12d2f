# b3dm extraction from 3D Tiles: a Dafny model

This project models the part of the gml2html scripts that gets GLB models out of a
3D Tiles dataset.

The b3dm reader takes a Batched 3D Model tile (OGC 3D Tiles 1.0, Batched 3D Model
format, "Header" section). It checks the 28-byte little-endian header and the magic
`b3dm`. The embedded glTF binary starts at `28 + featureTableJsonLength +
featureTableBinaryLength + batchTableJsonLength + batchTableBinaryLength`, and the reader
returns it as a slice of the input. The repository has two variants:

- `extract_shibuya_scramble.py` and `extract_b3dm_to_glb.py` share a lenient reader that
  never rejects the offset (`B3dm.ExtractGlbBytes`).
- `g2h.py` has a strict reader that raises when the offset is at or past the end of the
  data (`B3dm.ExtractB3dmGlb`).

The region test `bbox_intersect` is a closed-rectangle overlap test on the first four
entries (west, south, east, north) of a tile's `boundingVolume.region`
(`Region.BboxIntersect`). The box is given in degrees, but section "Region" of the
3D Tiles 1.0 bounding volumes stores a region in radians. The test as written therefore
rejects every conforming region (see "## Findings"). The walker model takes a flag
`convertRadians` in its environment (`Tileset.Env`):

- With the flag false, the walk is the scripts' own. It calls `bbox_intersect` on the raw
  region.
- With the flag true, the walk is the corrected program. It uses
  `Region.BboxIntersectRadians`, which converts the region to degrees first.

Every walker lemma except the `AsWritten` ones holds for both settings of the flag. Those
state what the code as written does, so they require the flag to be false.

The tileset walker `process_tile` does a pre-order walk over a parsed `tileset.json`:

- A node without a region counts as intersecting.
- Only an intersecting node's `content.uri` (else `content.url`) is resolved against the
  manifest's directory.
- An existing `.b3dm` is extracted to `stem + ".glb"`. An existing `.glb`/`.gltf` is
  copied under its own name.
- A `processed` set ensures each resolved path is handled at most once, and a counter
  `extracted` counts the outputs.
- Every child is walked with the same base directory.
- The manifest loop walks a truthy `root`, or else every element of `tiles`, and skips
  manifests that do not parse.

The two walkers are the same algorithm (one uses a closure with `nonlocal`, the other
globals), so they are modelled once:

- as specification functions over a state value (`Tileset.WalkTile`, `WalkList`,
  `WalkManifest`, `WalkFiles`);
- as the class `Extractor.TileExtractor`, whose fields `processed`, `extracted` and
  `outDir` are updated in place by `ProcessPath`, the recursive `ProcessTile`,
  `ProcessManifest` and `ProcessAll`. Each method is proved to leave exactly the state
  the functions compute.

The g2h driver is modelled in module `Convert`:

- `find_files` keeps the existing files whose lower-cased suffix is listed.
- The main loop dispatches on the suffix. It copies `.glb`/`.gltf`, extracts `.b3dm` to
  `stem + ".glb"`, and converts meshes to `stem + ".glb"`. A name goes into `converted`
  only when its handler succeeded, and a failure does not stop the loop.

The modelling choices:

- The file system is a map from resolved paths to bytes. Directories are not keys.
- The output directory is a map from file names to bytes.
- Path resolution (`(base_path / uri).resolve()`) is an uninterpreted function.
- The recursive listing `rglob('*')` is a sequence parameter.
- trimesh's load-and-export is a partial-function parameter.
- Bytes are integers in `[0, 256)`, and coordinates are reals.
- `name`, `suffix`, `stem` and the ASCII `lower()` follow pathlib's rules (module
  `Paths`).

Behaviour of the code worth knowing:

- The lenient readers never report an offset error. An offset at or past the end of the
  data gives an empty payload, which the walkers write as an empty `.glb` and count as
  extracted (`B3dm.ExtractGlbBytes`, `B3dm.StrictAgreesWithLenient`).
- With the lenient readers the payload can start at or after the declared end. A
  `byteLength` at or before the offset makes them read up to the end of the data instead.
- Extraction errors are printed and then dropped. An unreadable or malformed b3dm stays
  in `processed` without being counted.
- `extracted` counts processed paths, not distinct output files. Two b3dm files with the
  same stem in different directories overwrite one output
  (`Tileset.RunOutcome` states both the count and the output names).

## Model

| member | source | states |
|---|---|---|
| Bytes.U32At | extract_shibuya_scramble.py:59-64 | `struct.unpack_from('<I', data, off)` is the little-endian weighted sum of the four bytes at off, and is below 2^32 |
| Bytes.U32Bytes | g2h.py:109-114 | the four little-endian bytes of a u32 are read back as that u32 |
| Bytes.U32BytesOfU32At | g2h.py:109-114 | reading a u32 and encoding it again gives back the same four bytes, so a field is determined by its bytes |
| Bytes.PySlice | extract_shibuya_scramble.py:67 | Python's `data[lo:hi]`: its length after clamping both bounds to len(data), and element i is data[lo + i] |
| Bytes.AsciiDecodeIgnore | extract_shibuya_scramble.py:56 | `decode('ascii', errors='ignore')`: bytes below 128 become characters and the others are dropped, so the result is never longer than the input |
| Bytes.AsciiDecodeIgnoreFull | extract_shibuya_scramble.py:56 | `decode('ascii', errors='ignore')` keeps every character exactly when all bytes are below 128, and then yields the bytes as characters |
| Bytes.AsciiDecodeIgnoreMatches | g2h.py:104-105 | the decoded four bytes equal an ASCII word exactly when the raw bytes equal the word's codes |
| B3dm.HasMagic | extract_shibuya_scramble.py:56-57 | the magic test as written: the first four bytes decoded with errors ignored equal "b3dm" (characterised by B3dm.HasMagicExact) |
| B3dm.HasMagicExact | extract_shibuya_scramble.py:56-58 | the magic test passes exactly when the first four bytes are 98, 51, 100, 109 (no non-ASCII byte can be dropped into a match) |
| B3dm.HeaderAt | extract_shibuya_scramble.py:59-64 | the six u32 fields at offsets 4, 8, ..., 24, each below 2^32 |
| B3dm.ReadHeader | g2h.py:102-114 | too small exactly when shorter than 28 bytes; not b3dm exactly when the magic differs; otherwise the six u32 fields at offsets 4..24 |
| B3dm.ReadHeaderEncodes | g2h.py:109-114 | an accepted header re-encodes to exactly the first 28 bytes of the data |
| B3dm.ReadEncodedHeader | extract_b3dm_to_glb.py:18-26 | an encoded header followed by anything reads back as that header |
| B3dm.LenientEnd | extract_shibuya_scramble.py:66 | `end`: byteLength when byteLength <= len(data) and byteLength > glb_offset, else len(data) (characterised by B3dm.LenientPayloadEnd) |
| B3dm.ExtractGlbBytes | extract_shibuya_scramble.py:52-67 | fails exactly on short input or a wrong magic and never on the offset; the result is the bytes of the data from the GLB offset on, at most len(data) - 28 of them, and empty exactly when the offset is at or past the end |
| B3dm.LenientPayloadEnd | extract_b3dm_to_glb.py:25-28 | the payload ends at byteLength when glb_offset < byteLength <= len(data), else at the end of the data |
| B3dm.ExtractB3dmGlb | g2h.py:101-120 | too small, not b3dm and offset beyond the end each exactly in their case; otherwise the bytes from the offset, empty exactly when byteLength <= offset, ending at byteLength when byteLength <= len(data), else at the end |
| B3dm.ContainerRoundTrip | g2h.py:116-120 | header + tables + GLB (+ trailing bytes) gives back the GLB from the lenient reader when the GLB is non-empty or nothing trails, and from the strict reader when anything follows the tables |
| B3dm.VersionIgnored | g2h.py:109 | replacing the version field changes neither reader's result |
| B3dm.StrictAgreesWithLenient | g2h.py:118-120 | when the strict reader succeeds the lenient one does too, with the same bytes exactly when byteLength > offset; where the strict one reports the offset the lenient one returns an empty payload; the other errors coincide |
| Paths.RFindLast | extract_shibuya_scramble.py:174 | `rfind` returns an occurrence with none after it, and -1 exactly when the character is absent |
| Paths.Name | extract_shibuya_scramble.py:189 | `path.name`: the text after the last '/' (characterised by Paths.NameIsLastComponent) |
| Paths.Suffix | extract_shibuya_scramble.py:174 | `suffix`: from the last '.' of the name, when that dot is neither first nor last, else empty (characterised by Paths.StemSuffixSplit) |
| Paths.Stem | extract_shibuya_scramble.py:180 | `stem`: the name without its suffix (characterised by Paths.StemSuffixSplit) |
| Paths.NameIsLastComponent | extract_shibuya_scramble.py:189 | `path.name` contains no '/', ends the path, and is preceded by '/' unless it is the whole path |
| Paths.StemSuffixSplit | extract_shibuya_scramble.py:180 | stem + suffix is the name; a suffix starts with its only '.', has at least two characters, and leaves a non-empty stem |
| Paths.GlbRename | extract_shibuya_scramble.py:180 | stem + ".glb" has suffix ".glb" and gives back that stem |
| Paths.GlbName | extract_shibuya_scramble.py:180 | the output name stem + ".glb" (characterised by Paths.GlbNameParts) |
| Paths.GlbNameParts | extract_b3dm_to_glb.py:79 | the extracted GLB keeps the container's stem, has suffix ".glb", and has a new name unless the old suffix already was ".glb" |
| Paths.LowerSuffix | g2h.py:303 | `f.suffix.lower()` with ASCII lowering (characterised by Paths.LowerSuffixOf) |
| Paths.LowerSuffixOf | g2h.py:303 | lowering keeps a suffix empty or non-empty, and ".glb" is unchanged |
| Region.BboxIntersect | extract_shibuya_scramble.py:42-50 | false exactly when the box lies strictly west, east, south or north of the region; touching edges intersect |
| Region.IntersectIffCommonPoint | extract_b3dm_to_glb.py:10-15 | for proper rectangles the test holds exactly when the region and the box share a point |
| Region.HeightsIgnored | extract_shibuya_scramble.py:45 | only region[0..3] matter; the height entries never change the result |
| Region.Symmetric | extract_b3dm_to_glb.py:13-14 | exchanging the roles of region and box gives the same answer |
| Region.EdgeCases | extract_shibuya_scramble.py:48 | a region whose west edge equals the box's east edge intersects; one strictly east does not |
| Region.ShibuyaExample | extract_shibuya_scramble.py:33 | the test as written accepts the Shibuya Scramble target box against a region given in degrees, [139.70, 35.65, 139.71, 35.66], as the code assumes regions are |
| Region.RadianRegionMissesShibuya | extract_shibuya_scramble.py:45-49 | as written, a region whose east longitude is at most pi, as every region stored in radians is, never intersects the Shibuya box |
| Region.ShibuyaTileMissedAsWritten | extract_shibuya_scramble.py:42-50 | the Shibuya tile stored in radians is rejected by the test as written and accepted by the corrected test |
| Region.BboxIntersectRadians | extract_shibuya_scramble.py:42-50 | the corrected test: the region's first four entries, converted from radians to degrees, overlap the box on both axes |
| Region.DegreeTilesMatch | extract_shibuya_scramble.py:42-50 | a degree rectangle stored in radians is selected by the corrected test exactly when the degree rectangle meets the box |
| Region.RadiansIntersectIffCommonPoint | extract_b3dm_to_glb.py:10-15 | for proper rectangles the corrected test holds exactly when the region, in degrees, and the box share a point |
| Tileset.ContentRef | extract_shibuya_scramble.py:165-168 | a node has a reference exactly when it has content with a non-empty `uri` or `url`; a non-empty `uri` is returned, else a non-empty `url` |
| Tileset.Intersects | extract_shibuya_scramble.py:159-163 | a node without a region, or with an empty one, counts as intersecting. Otherwise `bbox_intersect` on the raw region decides, as the code does, or the corrected test when `convertRadians` is set |
| Tileset.ProcessPath | extract_shibuya_scramble.py:170-192 | one resolved path: skipped when missing or already processed; a b3dm is marked, then extracted to stem + ".glb" and counted when the lenient reader accepts it; a glb/gltf is marked, copied under its name and counted (characterised by Tileset.ProcessPathSkips and Tileset.ProcessPathNew) |
| Tileset.VisitContent | extract_shibuya_scramble.py:159-170 | a node's own step: only an intersecting node with a content reference processes that reference, resolved against the base |
| Tileset.WalkTile | extract_shibuya_scramble.py:156-223 | process_tile: the node's own step, then each child in order with the same base (characterised by Tileset.WalkTileAccounts) |
| Tileset.WalkList | extract_shibuya_scramble.py:222-223 | the children loop, threading the state through the children in order |
| Tileset.WalkManifest | extract_shibuya_scramble.py:225-240 | one manifest: nothing when it does not parse, the root when present, else every element of `tiles` |
| Tileset.WalkFiles | extract_b3dm_to_glb.py:94-104 | the loop over all manifests in order |
| Tileset.Handled | extract_shibuya_scramble.py:172-187 | a path is handled when it exists and its lower-cased suffix is ".b3dm", ".glb" or ".gltf" |
| Tileset.Succeeds | extract_shibuya_scramble.py:177-192 | a handled path yields an output when it is a glb/gltf, or a b3dm the lenient reader accepts |
| Tileset.OutName | extract_shibuya_scramble.py:180-189 | a b3dm is written as stem + ".glb", a glb/gltf under its own name |
| Tileset.ProcessPathSkips | extract_shibuya_scramble.py:172-192 | a missing path, a path with another suffix, or one already processed leaves the state unchanged |
| Tileset.ProcessPathNew | extract_shibuya_scramble.py:174-192 | a new handled path is marked processed before it is read; it is counted once and written under its output name exactly when it succeeds, otherwise nothing else changes |
| Tileset.ProcessPathAccounts | extract_b3dm_to_glb.py:72-90 | a path adds itself to `processed` exactly when it exists and is handled; the count and the outputs grow only by what it yields |
| Tileset.VisitContentAccounts | extract_shibuya_scramble.py:159-170 | a node's own step adds exactly its reference set (empty unless it intersects) and accounts for it |
| Tileset.WalkTileAccounts | extract_shibuya_scramble.py:156-223 | process_tile adds exactly the tree's handled references to `processed`; `extracted` grows by the number of those that succeed; the new output files are exactly their output names with their payloads |
| Tileset.WalkListAccounts | extract_shibuya_scramble.py:222-223 | walking the children in order adds exactly the union of their reference sets, with the same accounting |
| Tileset.WalkManifestAccounts | extract_shibuya_scramble.py:225-240 | a manifest walk adds its root's references, else those of its `tiles`, and nothing for an unparsable one |
| Tileset.WalkFilesAccounts | extract_b3dm_to_glb.py:94-104 | the manifest loop adds exactly the references of all manifests, with the same accounting |
| Tileset.RunOutcome | extract_b3dm_to_glb.py:58-106 | a whole run ends with `processed` equal to the referenced handled paths, `extracted` equal to the number that succeed (so never more than the distinct paths), and one output per output name holding the payload of a path with that name |
| Tileset.WalkTileProcessedNoop | extract_b3dm_to_glb.py:74-85 | walking a tree whose references are all processed changes nothing |
| Tileset.WalkListProcessedNoop | extract_b3dm_to_glb.py:91-92 | the same for a list of children |
| Tileset.WalkTileIdempotent | extract_shibuya_scramble.py:175-188 | walking a tree a second time leaves the state as the first walk did |
| Tileset.WalkTileAdds | extract_shibuya_scramble.py:161-223 | a walk adds the node's own reference set and its children's |
| Tileset.NonIntersectingAddsOnlyChildren | extract_shibuya_scramble.py:161-166 | a node outside the box adds nothing of its own, only its children's paths |
| Tileset.AsWrittenReferencesNothing | extract_shibuya_scramble.py:159-170 | as written, with the Shibuya box, a tree whose every node carries a region stored in radians references no path at all |
| Tileset.AsWrittenListReferencesNothing | extract_shibuya_scramble.py:222-223 | the same for a list of such trees |
| Tileset.AsWrittenWalkChangesNothing | extract_shibuya_scramble.py:156-223 | as written, walking such a tree extracts, copies and counts nothing: the state is unchanged |
| Tileset.RegionlessContentProcessed | extract_b3dm_to_glb.py:63-69 | a node without a region always has its handled content reference processed |
| Tileset.ChildrenAlwaysWalked | extract_b3dm_to_glb.py:91-92 | every child's references are collected with the same base directory, whether or not the node intersects |
| Tileset.ListRefsCover | extract_shibuya_scramble.py:222-223 | each child's reference set is part of the list's |
| Extractor.TileExtractor.constructor | extract_shibuya_scramble.py:153-154 | starts with `extracted = 0`, an empty `processed_files` and an empty output directory |
| Extractor.TileExtractor.ProcessPath | extract_shibuya_scramble.py:170-192 | the in-place handling of one resolved path leaves exactly the state `Tileset.ProcessPath` describes |
| Extractor.TileExtractor.ProcessTile | extract_shibuya_scramble.py:156-223 | the recursive in-place process_tile, children loop included, leaves exactly the state of `Tileset.WalkTile`. Its region test is `bbox_intersect` as written, or the corrected test when `convertRadians` is set |
| Extractor.TileExtractor.ProcessManifest | extract_shibuya_scramble.py:231-240 | root, else each of `tiles`, leaves exactly the state of `Tileset.WalkManifest` |
| Extractor.TileExtractor.ProcessAll | extract_b3dm_to_glb.py:94-104 | the loop over manifests leaves exactly the state of `Tileset.WalkFiles` |
| Extractor.Run | extract_shibuya_scramble.py:151-242 | a fresh extractor over all manifests reports as many extractions as referenced paths that succeed, and one output per output name of those |
| Convert.FindFiles | g2h.py:80-92 | find_files returns the root alone (or nothing) when it is a file, otherwise the listed files that pass the suffix test, in listing order |
| Convert.Found | g2h.py:82-92 | find_files' result: for a file root the root alone when it passes the suffix test, else the passing listed files (characterised by Convert.FoundMembers) |
| Convert.Matching | g2h.py:89-91 | the rglob loop: the listed entries that pass the test, in listing order (characterised by Convert.MatchingMembers) |
| Convert.MatchingMembers | g2h.py:89-91 | a path is returned exactly when it is listed, is a file, and its lower-cased suffix is in exts; never more results than listed entries |
| Convert.FoundMembers | g2h.py:84-92 | a path is found exactly when it is an existing file with a listed suffix that is the root (for a file root) or in the listing; a file root yields at most one result |
| Convert.FoundAreSupported | g2h.py:297-320 | with the default extensions, no found file reaches the "unsupported" branch |
| Convert.HandlerFor | g2h.py:306-320 | the dispatch on the lower-cased suffix: .glb/.gltf copied, .b3dm extracted, .obj/.ply/.stl/.fbx converted, anything else unsupported |
| Convert.Outcome | g2h.py:303-322 | one file's result: skipped when unsupported, failed when the file is missing or its handler raises, else converted with its output name and bytes (characterised by the Dispatch lemmas) |
| Convert.ConvertOne | g2h.py:303-320 | one iteration's try block yields exactly the outcome the dispatch rule gives |
| Convert.ConvertAll | g2h.py:301-322 | the loop's `converted` list and models directory are exactly those of the per-file outcomes in order |
| Convert.ConvertedNames | g2h.py:301-322 | the `converted` list: the output names of the converted files, in order (characterised by Convert.ConvertedExactly) |
| Convert.Written | g2h.py:307-317 | the models directory after the loop: each converted file's bytes stored under its name, later files overwriting earlier ones (characterised by Convert.WrittenContents) |
| Convert.ConvertedAppend | g2h.py:321-322 | files are handled independently: the outcome for a + b is that for a followed by that for b, so one failure does not affect the rest |
| Convert.ConvertedExactly | g2h.py:305-318 | a name is in `converted` exactly when some file's handler succeeded with that name; never more entries than files |
| Convert.WrittenContents | g2h.py:307-317 | the models directory gains exactly the converted names, and each holds the output of the last file converted to it |
| Convert.DispatchCopies | g2h.py:306-309 | a `.glb`/`.gltf` succeeds exactly when it exists and is copied byte for byte under its own name |
| Convert.DispatchExtracts | g2h.py:310-313 | a `.b3dm` is converted exactly when it exists and the strict reader accepts it, and then its payload is written as stem + ".glb"; otherwise it fails |
| Convert.DispatchMeshes | g2h.py:314-318 | a mesh file is converted exactly when it exists and the converter succeeds, and then the converter's output is written as stem + ".glb"; otherwise it fails |
| Convert.DispatchRenames | g2h.py:310-318 | a converted `.b3dm` or mesh is written as stem + ".glb", a different name with the same stem and suffix ".glb" |
| Convert.AgreesWithWalker | g2h.py:118-120 | a b3dm that g2h extracts is also extracted and counted by the walker under the same name, with the same bytes unless g2h wrote an empty slice |
| Scenarios.HundredByteContainer | g2h.py:116-120 | a 100-byte container with a 20-byte feature table JSON gives payload bytes 48..100 from both readers |
| Scenarios.GatedSibling | extract_shibuya_scramble.py:161-192 | root without content, an intersecting b3dm child and a non-intersecting glb child: exactly one GLB is extracted and counted, and the glb is not copied |
| Scenarios.DuplicateReference | extract_shibuya_scramble.py:175-176 | two siblings referencing one file process it once: at most one output and one count |
| Scenarios.RadianLeafOverShibuya | extract_shibuya_scramble.py:161-176 | a leaf over the crossing whose region is stored in radians, with a handled content file: the walk as written does not process the file, the corrected walk does |
| Scenarios.ContentlessNodeWalksChildren | extract_shibuya_scramble.py:165-168 | a node with no usable content reference contributes nothing itself, and its children are still walked |

## Left out

- Downloading, unzipping and zipping (`download_url`, `unzip_if_needed`, `make_archive`) are network and archive I/O.
- Temporary directories, argument parsing and input selection in g2h's `main` are left out for the same reason.
- `convert_mesh_to_glb` wraps the trimesh library. It is a parameter `convertMesh` that either yields the GLB bytes or fails.
- `generate_viewer_html` and the viewer step after the loop are HTML and JavaScript templating.
- plateaukit installation and the discovery of the dataset root are environment plumbing. The list of `tileset.json` files is an input.
- JSON parsing is not modelled. Manifests are a datatype, with "unparsable" as one case.
- JSON values of the wrong type are not modelled either: a non-string `uri`, a `null` bounding volume, or `children` that is not a list. Python would raise on these.
- Tileset.WalkTile: a region with one to three entries makes one of `region[1..3]` raise an uncaught IndexError that ends the run. With one or two entries it is `region[1]` or `region[2]`, because the tuple is built left to right. The walk requires every non-empty region to have at least four entries.
- Tileset.WalkTile: a tile tree deeper than Python's recursion limit makes `process_tile` raise an uncaught RecursionError. The model walks trees of any depth, and so does Extractor.TileExtractor.ProcessTile.
- Tileset.ProcessPath: `exists()` is also true for a directory. A directory named like `x.b3dm` is added to `processed_files` and then fails to read. The model's file map holds only files, so such a directory counts as missing and is not marked.
- Path resolution, existence tests and symbolic links are not modelled. Resolution is an uninterpreted function, and existence is membership in the file map.
- Extractor.TileExtractor.ProcessPath: read, write and copy failures are not modelled, so every read and copy of an existing file succeeds. This also leaves out the uncaught exception from `shutil.copy2`, which would end the run.
- Convert.ConvertOne: a trimesh failure that happens after the output file was opened would leave a partial file. The model writes nothing on failure.
- Coordinates are reals. Floating-point rounding is not modelled; the test only compares values.
- Region.BboxIntersect: wrap-around at the antimeridian is not handled, in the model as in the code. A region with west > east is tested as written: it intersects exactly when `lon_min <= east` and `west <= lon_max` (and the latitudes overlap), not as the two intervals it stands for.
- Printing and logging are left out.
- Paths.Suffix follows pathlib before Python 3.14, where a name ending in '.' has no suffix.
- Paths.LowerAscii lowers only ASCII letters, unlike `str.lower` on other Unicode letters.
- Paths use '/' as the only separator.
- Convert.ConvertAll records output names, not full `models_out / name` paths. All outputs go to the same directory.
- Convert.Outcome assumes the input files and the models directory do not overlap. Run `g2h.py .` a second time with the default output directory, and the listing includes the first run's `models/*.glb`. Copying such a file onto itself raises `shutil.SameFileError`, which the loop catches, so the file is not added to `converted`. The model reports it as converted.
- The flag `convertRadians` of `Tileset.Env` has no counterpart in the code. The code is the walk with the flag false; the flag true is the corrected program of "## Findings".
- Extractor.Run assumes the output directory starts empty (`Tileset.Initial`, and the constructor). The code only creates it if missing, so files from an earlier run remain. Its `outDir.Keys == OutNames(..)` describes the files written by this run only.

## Findings

| source | as written | input that shows it | evidently intended | confidence | as-written member | corrected member |
|---|---|---|---|---|---|---|
| extract_shibuya_scramble.py:42-50 | compares `boundingVolume.region`, which 3D Tiles 1.0 stores in radians, with `TARGET_BBOX` in degrees; every conforming region has east <= pi < 139.6996, so no node with a region ever has its content extracted, and a tileset whose every node carries a region yields nothing (the same test is at extract_b3dm_to_glb.py:10-15) | region `[radians(139.70), radians(35.65), radians(139.71), radians(35.66), 0, 100]`, the tile over the crossing | convert the region's four angles to degrees before comparing | high; not executed | Tileset.AsWrittenWalkChangesNothing | Region.BboxIntersectRadians |
