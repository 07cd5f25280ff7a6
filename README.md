# PARTISN zone map, modelled in Dafny

This project models the zone-map construction of PyNE's PARTISN input writer,
`pyne/partisn.py`, and proves properties of the model. The parts modelled are:

- **Coordinate system** (`_get_coord_sys`). It finds the mesh axes that have more than
  two divisions and keeps their bounds. It derives IGEOM (`SLAB`, `X-Y` or `X-Y-Z`)
  from the number of such axes.
- **Zones** (`_get_zones`), in three loops:
  - the discretization records are grouped per voxel, and each cell becomes its
    material, with repeated materials merged by summing their volume fractions;
  - voxels are deduplicated in increasing index order. A vacuum or graveyard voxel
    gets zone 0. Any other voxel reuses the first registered zone it matches
    (equal material list, fractions close in numpy's `allclose` sense), or registers
    a new zone numbered one more than the count;
  - the ZONES array, `im × jm*km`, is filled row-major from voxel index 0.
- **Nuclide renaming** (`_nucid_to_xs`). Each material's densities are re-keyed from
  nuclide ids to cross-section names. An id without a name is keyed by its decimal
  rendering, and a warning is issued.
- **Name list** (`_get_xs_names`): the `(id, name)` pairs of the names dictionary.
- **Title name** (`_title`): the last `/` component of the geometry path, cut at its
  first `.`.

Structure:

- Each stage is one module: `Common`, `CoordSys`, `Aggregate`, `Dedup`, `Layout`,
  `Zones`, `XsNames`, `Title`.
- Every loop of the modelled functions is a `method`, proved against a specification:
  - the aggregation against `Merged` and `CellsOf`;
  - the scan against `Deduplicate`;
  - the fill against the voxel-zone map.
- Lemmas state what the specification functions promise.
- Failures are `Result` values, not exceptions:
  - a cell with no material assignment and a voxel index missing from the map raise
    Python `KeyError`s;
  - zero active axes leaves IGEOM unassigned, which makes the return fail;
  - numpy rejects a negative array dimension.

Modelling choices:

- Volume fractions are reals. `np.allclose(a, b, rtol=1e-8)` with its default `atol`
  is `|a - b| <= 1e-8 + 1e-8·|b|` element by element. This test is not symmetric:
  `b` is the registered zone's fraction.
- A Python 2 dictionary puts integer key k in slot `k & mask` of its table. Keys that
  are exactly 0..n-1 or 1..z therefore fill consecutive slots and come out in
  increasing order. The voxel indices of a full discretization are 0..n-1, and the
  zone numbers of `zones_mats` are 1..z. So voxels are visited in increasing index
  order, and registered zones are scanned from zone 1 up. Keys with gaps need not
  come out in order: `{1: a, 8: b}` yields 8 before 1.
- Nuclide ids are large integers, so their dictionary order is not increasing. The
  renaming methods therefore pick the next key with `:|`, and their contracts hold
  for every visiting order.
- The zone-0 test is the code's exact list test: one of four spellings, as a
  one-element material list, with no case folding.
- A voxel map with more voxels than the array has positions is not an error. Only a
  missing index below `im*jm*km` fails.

## Model

| member | source | states |
|---|---|---|
| CoordSys.CoordString | pyne/partisn.py:196-206 | An axis is in the coordinate string iff its division list has more than two entries; the string has one entry per active axis, none twice, in x, y, z order. |
| CoordSys.ReadBounds | pyne/partisn.py:208-212 | The bounds map has exactly the axes of the coordinate string as keys, each mapped to its full division list. |
| CoordSys.GetCoordSys | pyne/partisn.py:193-223 | Succeeds iff some axis is active, else fails with NoActiveAxis; the bounds hold exactly the active axes with their divisions; IGEOM is SLAB, X-Y, X-Y-Z exactly for one, two, three active axes. |
| CoordSys.BoundsSize | pyne/partisn.py:209-212 | The bounds map has one key per active axis. |
| Aggregate.GroupByVoxel | pyne/partisn.py:258-266 | The grouped map's keys are exactly the voxels of the records; each voxel holds its records' cells and fractions in record order. |
| Aggregate.AddFraction | pyne/partisn.py:285-288 | Adds the fraction to the one entry holding the material (its first position) and leaves every other entry unchanged. |
| Aggregate.InsertEntry | pyne/partisn.py:279-288 | A new material is appended with its fraction; a repeated one has the fraction added to its existing entry. |
| Aggregate.MergeVoxel | pyne/partisn.py:274-288 | Succeeds iff every cell of the voxel has a material; otherwise fails with a MissingCell of the voxel that has no assignment; on success the composition is the merge of the voxel's materials and fractions. |
| Aggregate.Aggregate | pyne/partisn.py:258-288 | Succeeds iff every record's cell is assigned, else fails naming an unassigned cell of some record; the result has one composition per voxel of the records, equal to the merge of that voxel's cells' materials. |
| Aggregate.MergedDistinct | pyne/partisn.py:279-282 | A merged material list holds no material twice, and holds exactly the materials of the input. |
| Aggregate.MergedOrder | pyne/partisn.py:279-282 | Merged materials are listed in order of their first appearance among the voxel's cells. |
| Aggregate.MergedSums | pyne/partisn.py:282-288 | Each merged fraction is the sum of the fractions of the cells with that material. |
| Aggregate.MergedMeaning | pyne/partisn.py:278-288 | The merge keeps each material once, in first-seen order, with the sum of its fractions; the material and fraction lists have equal length. |
| Aggregate.MergedNoneFor | pyne/partisn.py:282-288 | A material that no cell has sums to zero. |
| Dedup.FirstMatch | pyne/partisn.py:298-306 | The first registered zone the composition matches, with none before it matching; or none, when no registered zone matches. |
| Dedup.Matches | pyne/partisn.py:299-301 | A voxel matches a registered zone when the material lists are equal and every fraction passes numpy's `allclose` element test with rtol 1e-8 and the default atol 1e-8: `abs(a - b) <= atol + rtol·abs(b)`, with `b` the zone's fraction, so the test is not symmetric. Compositions here are well formed, so equal material lists come with fraction lists of equal length. |
| Dedup.IsVoid | pyne/partisn.py:308-309 | A composition is void exactly when its material list is one of the four one-element sentinel lists, vacuum or graveyard in either capitalisation; so a void composition has exactly one material. The same test is repeated at lines 317-318. |
| Dedup.ScanZones | pyne/partisn.py:298-306 | With zones registered, the match flag says whether some zone matches and y is the first match; with none, flag and y keep their values from the previous voxel. |
| Dedup.Visit | pyne/partisn.py:297-321 | One voxel of the scan gives the zone and the new registry of one step of Deduplicate; `first` holds exactly while no zone is registered, `match` is false while no zone is registered, `not match` holds iff no registered zone matches, and so `first or not match` equals `not match`: the `first` flag is redundant. |
| Dedup.AssignZones | pyne/partisn.py:292-321 | The voxel-zone map has the voxels as keys; the voxel visited t-th gets the t-th zone of Deduplicate over the voxels in increasing index order; the zone table is that registry keyed 1..z, and its size is the number of registered zones. |
| Dedup.VoidZone | pyne/partisn.py:307-321 | A voxel gets zone 0 iff its material list is one of the four vacuum/graveyard lists; no registered zone is such a list. |
| Dedup.ZonesContiguous | pyne/partisn.py:311-315 | Every zone number is at most the number of registered zones, and every number from 1 to that count is given to some voxel. |
| Dedup.ZonesInEncounterOrder | pyne/partisn.py:311-315 | A voxel's zone is at most one more than the largest number handed out before it, and the largest number is the registry size. |
| Dedup.ZoneIsFirstMatch | pyne/partisn.py:298-306 | A non-void voxel's zone is registered and is the first registered zone its composition matches. |
| Dedup.RegistryDistinct | pyne/partisn.py:307-315 | No registered zone matches a zone registered before it. |
| Dedup.RegistryFromVoxels | pyne/partisn.py:312-314 | Each registered zone holds the composition of the first voxel that received it. |
| Dedup.SameCompositionSameZone | pyne/partisn.py:297-321 | Voxels with identical compositions get the same zone. |
| Dedup.SharedZoneNotClose | pyne/partisn.py:299-303 | Two voxels can share a zone although neither's fractions are close to the other's. |
| Dedup.CloseVoxelsSplit | pyne/partisn.py:299-315 | Two voxels whose fractions are close to each other can get different zones. |
| Dedup.RegistryMapSize | pyne/partisn.py:141 | NZONE, the size of the zone table, is the number of registered zones. |
| Layout.RowStartProduct | pyne/partisn.py:339-344 | Row i starts at voxel i*jm*km. |
| Layout.RowStartBound | pyne/partisn.py:341-343 | Every position of the array is numbered below im*jm*km. |
| Layout.RowStartDivMod | pyne/partisn.py:341-343 | Every voxel number below im*jm*km is read at one position of the array: row n / (jm*km), column n % (jm*km). |
| Layout.Shape | pyne/partisn.py:324-340 | im is the x bounds less one, or 1 without x bounds, and likewise jm and km; the grid is im by jm*km, and it fails with the negative-dimension error exactly when im or jm*km is negative, as np.zeros does. |
| Layout.MeshShape | pyne/partisn.py:324-340 | With bounds from the coordinate system (partisn.py:193-223), the shape is never an error and holds one position per mesh voxel: im*jm*km. |
| Layout.FillRow | pyne/partisn.py:342-344 | Fills row i from the running index; either the whole row receives the map's zones of indices n0.. and n advances by the row length, or it fails at the least missing index; other rows are unchanged. |
| Layout.FillGrid | pyne/partisn.py:339-344 | The array holds at [i, jk] the zone of voxel i*jm*km + jk; the fill fails iff some index below im*jm*km is missing, reporting the least one. |
| Layout.FillZones | pyne/partisn.py:324-344 | A negative dimension fails; otherwise the array is as FillGrid states for the shape of the bounds. |
| Zones.ScanIsZoneMap | pyne/partisn.py:292-321 | The map the scan fills is ZoneMap, the zones of Deduplicate paired with the voxels in increasing order. |
| Zones.VoidVoxels | pyne/partisn.py:307-321 | Every voxel has a zone, and it is 0 exactly for the vacuum and graveyard voxels. |
| Zones.MatchedVoxels | pyne/partisn.py:298-306 | A non-void voxel's zone is registered, matches the voxel's composition, and no lower-numbered zone does. |
| Zones.RegisteredZones | pyne/partisn.py:294-315 | Zone numbers are 1..NZONE without gaps; no registered zone is void; no zone matches a lower-numbered one; every voxel's zone is at most NZONE. |
| Zones.ZoneCreators | pyne/partisn.py:311-315 | Each registered zone was created by the voxel of least index among those with that zone, and holds its composition. |
| Zones.GetZones | pyne/partisn.py:251-346 | An unassigned cell fails first, naming a cell of some record; then a negative dimension fails; otherwise the ZONES array is filled from ZoneMap as FillGrid states, and the zone table is the registry. |
| XsNames.DecimalRoundTrip | pyne/partisn.py:361 | The decimal rendering of an id is a canonical numeral that reads back as the id. |
| XsNames.DecimalInjective | pyne/partisn.py:361 | Different ids render as different keys. |
| XsNames.RenameStep | pyne/partisn.py:355-361 | Entering one more nuclide under its key keeps every key backed by a nuclide with that key and its density. |
| XsNames.RenameDensities | pyne/partisn.py:354-361 | The keys of a material's result are exactly the keys of its nuclides; each value is the unchanged density of a nuclide with that key; the warnings are exactly the ids without a name, each once. |
| XsNames.RenamedExactly | pyne/partisn.py:355-361 | When no two nuclides share a key, every nuclide's density is found unchanged under its key. |
| XsNames.UnnamedKeyDistinct | pyne/partisn.py:356-361 | An unnamed id's key differs from any other unnamed id's and from any name that is not a decimal numeral. |
| XsNames.XsKey | pyne/partisn.py:356-361 | A nuclide's key is its library name when the names hold its id, and otherwise its decimal rendering. DecimalRoundTrip and UnnamedKeyDistinct state what that rendering promises. |
| XsNames.NucidToXs | pyne/partisn.py:349-363 | The material keys are preserved; each material is re-keyed as RenameDensities states; the warnings are exactly the (material, id) pairs with no name, each once. |
| XsNames.GetXsNames | pyne/partisn.py:185-190 | The list has one pair per entry of the names dictionary, each (id, name) pair of it and nothing else, with no id twice. |
| Title.SplitJoin | pyne/partisn.py:368-371 | Splitting on a character loses nothing: joining the pieces gives the string back, and no piece holds the separator. |
| Title.Name | pyne/partisn.py:368-371 | The title name by the source's two branches: with a `/` in the path, the last `/` piece cut at its first `.`; otherwise the path cut at its first `.`. The name holds neither `/` nor `.`. |
| Title.LastPiece | pyne/partisn.py:369 | The last piece is the suffix after the last separator, or the whole string. |
| Title.NameMeaning | pyne/partisn.py:366-371 | The name is the prefix, up to its first '.', of the path's last '/' component, and holds neither '/' nor '.'. |
| Title.BranchesAgree | pyne/partisn.py:368-371 | Both branches compute the same name: without a '/', the path is its own last component. |

## Left out

- The geometry library calls (`dagmc.load`, `dagmc.discretize_geom`, `dagmc.materials_to_cells`) are foreign. Their outputs are inputs here: a record sequence and a cell-to-material map.
- `_get_material_lib` is not part of this model. It calls the material library's collapse and atom-density code and scales by 1e-24. It also creates `comp_list` once, outside its loop, so every material shares one dictionary.
- `write_partisn_input`, its keyword handling and the per-axis block entries are not modelled: they are bookkeeping around file output. `_write_input` is an empty stub.
- `datetime.now()` in `_title` is left out: it reads a clock. Only the name is modelled.
- Floating point: fractions, densities and the `allclose` test are on reals, with no IEEE rounding.
- Warnings are returned as a list in the order they are issued. Python's warning filter can show a repeated message only once; that display behaviour is not modelled.
- `numpy` arrays: ZONES is an `array2<nat>`. The dtype and numpy's own checks other than a negative shape are left out.
- Dictionary order of nuclide ids and material names is not fixed: the methods may visit keys in any order.
- Voxel indices with gaps: the scan is modelled in increasing voxel order. If the discretization left gaps in the voxel indices, Python 2 could visit the voxels in another order, and the zone numbers would then differ from the model's.
- XsNames.RenameDensities: when two nuclides share a key, it states only that the value is the density of one of them, not which. The survivor is the last one visited, and that depends on dictionary order. RenamedExactly gives the exact value when keys do not collide.
- XsNames.NucidToXs: the same weakening as RenameDensities, for every material. The `xs_names` parameter the source never reads is dropped.
