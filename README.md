# Hermes2D mesh refinement engine in Dafny

A model of the hierarchical mesh of Hermes2D (`hermes2d/src/mesh/mesh.cpp`)
and of the polynomial-order packing macros of `hermes2d/include/global.h`,
with proofs of what the code promises.

The mesh is an arena:

- nodes and elements live in sequences held by the class `MeshModel.Mesh`;
  an id is an index and `Null` (-1) stands for a null pointer;
- vertex and edge nodes are found through two tables from the sorted pair of
  their end ids to the node id (`HashTable::get_vertex_node`,
  `get_edge_node`, `peek_vertex_node`: a `get` looks up or creates, a `peek`
  only looks up);
- an element is a triangle or a quad with vertex and edge node ids, a marker,
  the flags `active` and `used`, a parent and four son slots;
- the mesh keeps `nactive`, `nbase`, `ninitial`, `ntopvert`, the `seq` stamp
  and the `refinements` log; `Mesh.Valid()` is the structural invariant
  (tables consistent with the nodes, every element well formed, sons younger
  than their parent and pointing back at it) that every operation keeps;
  for the sons of a transitional split that back-link is the model's own, as
  "## Left out" explains.

The operations are the element factories, the four kinds of split, the
refine and unrefine entry points, the criterion sweeps (towards a vertex,
towards the boundary, in areas), the marker conversion tables, edge degrees
and `regularize` with its transitional splits, and the egg-shell extraction
(`EggShell::get_egg_shell` and the passes it runs).  Routines that update
state in place are methods of, or on, the mesh class; lookups and recursions
over the tables (`get_edge_degree`, the criteria, the marker lookups, the
order macros) are functions.

Files, in dependency order:

| file | module | contents |
|---|---|---|
| order_codec.dfy | OrderCodec | order packing macros, transformation counts |
| markers.dfy | Markers | `MarkersConversion` |
| mesh_data.dfy | MeshData | nodes, elements, keys, flag writes, edge degree |
| mesh.dfy | MeshModel | the `Mesh` class: tables, factories, setters |
| split_flags.dfy | SplitFlags | hand-down tables of boundary flags |
| mesh_refine.dfy | MeshRefine | shared split steps, triangle into four triangles |
| quad_split.dfy | QuadSplit | `refine_quad` kinds 0, 1, 2 |
| tri_quad_split.dfy | TriangleQuadSplit | triangle into three quads |
| quad_tri_split.dfy | QuadTriangleSplit | quad into two triangles |
| refine_api.dfy | RefineApi | `refine_element(_id)`, `refine_all_elements` |
| parents.dfy | ParentMap | `assign_parent`, descent in the element tree |
| unrefine.dfy | Unrefine | `unrefine_element_internal`, `unrefine_element_id` |
| unrefine_all.dfy | UnrefineAll | `unrefine_all_elements` |
| criteria.dfy | Criteria | `refine_by_criterion`, `rtv_criterion`, `refine_towards_vertex` |
| towards_boundary.dfy | BoundaryRefine | `rtb_criterion`, `refine_towards_boundary` |
| in_areas.dfy | AreaRefine | `refine_in_area(s)` |
| edge_degrees.dfy | EdgeDegrees | the degree table `regularize` consults |
| transitions.dfy | Transitions | `regularize_triangle`, `regularize_quad` |
| regularize.dfy | Regularize | `regularize` |
| egg_shell_levels.dfy | EggShellLevels | `get_egg_shell_structures` |
| egg_shell_prune.dfy | EggShellPrune | the two `used` loops of `make_egg_shell_mesh` (up the parent chains), `fix_hanging_nodes`, `mark_elements_down_used` |
| egg_shell.dfy | EggShellMesh | `make_egg_shell_mesh` (the pruning it composes, the edge marking), `fix_markers`, `get_egg_shell` |

## Model

| member | source | states |
|---|---|---|
| OrderCodec.GetHOrder | hermes2d/include/global.h:107 | the horizontal order of any packed order lies in [0, 31] |
| OrderCodec.MaskIsThirtyOne | hermes2d/include/global.h:103-104 | the mask `(1 << 5) - 1` is 31 |
| OrderCodec.GetHOfMakeQuad | hermes2d/include/global.h:107-109 | unpacking the horizontal half of `MAKE_QUAD_ORDER(h, v)` gives `h` for 0 <= h <= 31 |
| OrderCodec.GetVOfMakeQuad | hermes2d/include/global.h:108-109 | unpacking the vertical half of `MAKE_QUAD_ORDER(h, v)` gives `v` for 0 <= h <= 31, with an arithmetic right shift for negative `v` |
| OrderCodec.MakeQuadOfParts | hermes2d/include/global.h:107-109 | packing the two halves of any int gives the int back |
| OrderCodec.MakeQuadInjective | hermes2d/include/global.h:109 | two packed orders are equal exactly when both halves are |
| OrderCodec.EdgeOrderOfQuad | hermes2d/include/global.h:110 | quad edges 0 and 2 take the horizontal order, edges 1 and 3 the vertical one; triangle edges take the low five bits |
| OrderCodec.TrfCounts | hermes2d/include/global.h:62-68 | nine transformations, the identity's index is the quad count and one past the last quad transformation |
| Markers.MarkersConversion.constructor | hermes2d/src/mesh/mesh.cpp:1895-1897 | empty tables, next marker 1 |
| Markers.MarkersConversion.Copy | hermes2d/src/mesh/mesh.cpp:1189-1190 | the copy has the same two tables and counter |
| Markers.MarkersConversion.InsertMarker | hermes2d/src/mesh/mesh.cpp:1953-1962 | a known string returns its int and changes nothing; a new string gets `min_marker_unused` in both tables and the counter moves by one; the tables stay inverse bijections over [1, counter) |
| Markers.MarkersConversion.GetUserMarker | hermes2d/src/mesh/mesh.cpp:1969-1979 | the DG sentinel maps to its string; otherwise valid exactly when the int is in the table, and then the string maps back to it; unknown gives "-999" |
| Markers.MarkersConversion.GetInternalMarker | hermes2d/src/mesh/mesh.cpp:1981-1991 | the DG sentinel string maps to its int; otherwise valid exactly when the string is known, and then the int (at least 1) maps back to it; unknown gives -999 |
| Markers.MarkersConversion.RoundTrip | hermes2d/src/mesh/mesh.cpp:1969-1991 | string to int to string and int to string to int are the identity on recorded entries |
| MeshData.Peek | hermes2d/src/mesh/mesh.cpp:2421-2430 | `peek_vertex_node`: the registered node under the sorted key, or null when none |
| MeshData.PeekIsMid | hermes2d/src/mesh/mesh.cpp:2421-2430 | a registered node is of the table's kind and records the two ids it is registered between |
| MeshData.EdgeDegree | hermes2d/src/mesh/mesh.cpp:2421-2430 | `get_edge_degree` terminates (a midpoint is younger than its ends) and is 0 exactly when no midpoint vertex is registered |
| MeshData.EdgeDegreeSymmetric | hermes2d/src/mesh/mesh.cpp:2421-2430 | the degree of an edge does not depend on the order of its ends |
| MeshData.AllLand | hermes2d/src/mesh/mesh.cpp:454-462 | a split's boundary writes to pairwise distinct nodes all land: each target ends with its own flag and marker |
| MeshData.AsWrittenCentreBreaksSon1 | hermes2d/src/mesh/mesh.cpp:1475 | with the key as written, son 1 (x0, v1, x1, mid) has a corner registered between the ends of its own edge 0, so that edge already has degree at least 1 |
| MeshData.TriangleQuadSonsSound | hermes2d/src/mesh/mesh.cpp:1651-1653 | with the intended centre key, the three quads of a sound triangle are sound |
| MeshData.TriangleSonsSound | hermes2d/src/mesh/mesh.cpp:437-440 | the four sons of a sound triangle are sound |
| MeshModel.Mesh.constructor | hermes2d/src/mesh/mesh.cpp:33-36 | an empty mesh: no nodes, no elements, empty tables, all counters zero, fresh marker tables |
| MeshModel.Mesh.AddVertex | hermes2d/src/mesh/mesh.cpp:114-126 | a loader vertex is appended with `TOP_LEVEL_REF` references, no ends and no boundary flag; nothing else changes |
| MeshModel.Mesh.GetVertexNode | hermes2d/src/mesh/mesh.cpp:414-416 | `get_vertex_node`: a registered node is returned unchanged; otherwise a new unreferenced vertex at the midpoint is appended and registered under the sorted key |
| MeshModel.Mesh.GetEdgeNode | hermes2d/src/mesh/mesh.cpp:350-352 | `get_edge_node`: a registered node is returned unchanged; otherwise a new unreferenced interior edge node is appended and registered |
| MeshModel.Mesh.RefAllNodes | hermes2d/src/mesh/mesh.cpp:356 | each node's reference count grows by its number of occurrences among the element's vertex and edge nodes; nothing else changes |
| MeshModel.Mesh.UnrefAllNodes | hermes2d/src/mesh/mesh.cpp:450 | each count drops by its occurrences; a node that reaches zero is unused and leaves its table, and only such entries leave |
| MeshModel.Mesh.AddEdgeNodes | hermes2d/src/mesh/mesh.cpp:350-352 | edge i of the new element is the registered edge node between corners i and i+1, existing nodes and table entries unchanged |
| MeshModel.Mesh.CreateTriangle | hermes2d/src/mesh/mesh.cpp:320-359 | fails, with the source's error and nothing changed, exactly when two corners coincide or all three share x or y; otherwise appends an active base triangle (no parent, no sons, the given marker) whose edge i is the edge node of (v_i, v_i+1), references its nodes and adds one to the live count |
| MeshModel.Mesh.CreateQuad | hermes2d/src/mesh/mesh.cpp:361-404 | fails exactly when a pair (including the diagonals v0, v2 and v1, v3) coincides or one of the four listed triples shares x or y; otherwise as `CreateTriangle` with four corners |
| MeshModel.Mesh.WriteFlags | hermes2d/src/mesh/mesh.cpp:454-462 | the node list becomes the list with the boundary writes applied in order; kinds, ends and tables unchanged |
| MeshModel.Mesh.Deactivate | hermes2d/src/mesh/mesh.cpp:448 | `e->active = 0` and the live count drops by one if `e` was live |
| MeshModel.Mesh.Adopt | hermes2d/src/mesh/mesh.cpp:465-471 | every non-null son records `e` as parent, then `e` takes the son slots; the live count is unchanged |
| MeshModel.Mesh.RemoveElement | hermes2d/src/mesh/mesh.cpp:698 | `elements.remove(s)`: only the `used` flag of `s` changes |
| MeshModel.Mesh.Reactivate | hermes2d/src/mesh/mesh.cpp:705-710 | element `e` becomes a leaf again with the registered edge nodes of its corners and empty son slots |
| MeshModel.Mesh.CopySonCaches | hermes2d/src/mesh/mesh.cpp:738-740 | every non-null son takes the parent's `iro_cache`; nothing else changes |
| MeshModel.Mesh.SetUsed | hermes2d/src/mesh/mesh.cpp:3038 | `e->used = u` and nothing else |
| MeshModel.Mesh.SetElementMarker | hermes2d/src/mesh/mesh.cpp:3046 | `e->marker = mk`, live count unchanged |
| MeshModel.Mesh.SetNodeMarker | hermes2d/src/mesh/mesh.cpp:2964 | `node->marker = mk` and nothing else |
| MeshModel.Mesh.SetNodeBoundary | hermes2d/src/mesh/mesh.cpp:2968-2970 | `node->bnd = true` and nothing else |
| MeshModel.Mesh.SetNodePosition | hermes2d/src/mesh/mesh.cpp:1477-1478 | the node moves to the given point; kinds and recorded ends unchanged, so the mesh stays valid |
| SplitFlags.ParentFlags | hermes2d/src/mesh/mesh.cpp:409-410 | the parent edges' flags and markers are read before the split changes anything |
| SplitFlags.HandDownsLand | hermes2d/src/mesh/mesh.cpp:454-462 | when a hand-down table's targets are distinct, every named son slot ends with the parent edge's flag and marker |
| MeshRefine.CreateSons | hermes2d/src/mesh/mesh.cpp:437-440 | the sons are created in order on their corner lists; older elements unchanged; with distinct corners a failure can only be a shared coordinate |
| MeshRefine.MidNodes | hermes2d/src/mesh/mesh.cpp:414-416 | each mid-edge vertex node is looked up or created between its two ends |
| MeshRefine.RetireParent | hermes2d/src/mesh/mesh.cpp:448-450 | the parent becomes inactive, `nactive` moves by the split's delta, the parent's nodes are unreferenced |
| MeshRefine.HandDownAndAdopt | hermes2d/src/mesh/mesh.cpp:454-471 | the hand-down writes, then every son records the parent and the parent takes the son slots |
| MeshRefine.RefineTriangleToTriangles | hermes2d/src/mesh/mesh.cpp:406-478 | four sons are appended on (v0, x0, x2), (x0, v1, x1), (x2, x1, v2), (x1, x2, x0) with the parent's marker and parent link; the parent is inactive with those son slots; `nactive` grows by three; under a sound parent each son edge on a parent edge carries that edge's flag and marker and the middle son's corners take the flags of the opposite edges |
| MeshRefine.CreateSon | hermes2d/src/mesh/mesh.cpp:437 | one `create_triangle` / `create_quad` call of a split: on success one fresh live son on exactly those corners with the parent's marker; on failure the elements are unchanged and, when the corners are distinct, the reason is a shared coordinate |
| MeshRefine.RetireAndHandDown | hermes2d/src/mesh/mesh.cpp:447-471 | parent retired, `nactive` moved by the split's delta, the sons' slots and parent links as `Replaced`/`Adopted` describe, the live count down by one; with distinct targets every hand-down lands |
| MeshRefine.TriangleSons | hermes2d/src/mesh/mesh.cpp:414-440 | the three mid-edge vertices sit between the right corners; on success four live sons on the split's corner lists, whose hand-down targets are distinct when the parent is sound; older elements unchanged |
| MeshRefine.TriangleWritesApart | hermes2d/src/mesh/mesh.cpp:454-462 | under a sound parent the six son edges along the parent's edges are distinct from each other, and so are the three mid-edge vertices |
| MeshRefine.TriangleTargetsApart | hermes2d/src/mesh/mesh.cpp:454-462 | under a sound parent the nine nodes the triangle split writes are distinct, so no write undoes another |
| QuadSplit.RefineQuad | hermes2d/src/mesh/mesh.cpp:510-669 | the parent's edge flags are read, it is retired (`nactive` minus one) whatever follows; on success the sons of the chosen refinement (four on (v0, x0, mid, x3), (x0, v1, x1, mid), (mid, x1, v2, x2), (x3, mid, x2, v3), or two horizontal, or two vertical, in slots 2 and 3 for the vertical kind) are appended with parent links, `nactive` ends at old minus one plus the son count, and under a sound parent every hand-down row holds; a failure of `create_quad` on a sound parent is a shared coordinate, and the parent stays retired |
| QuadSplit.QuadSlots | hermes2d/src/mesh/mesh.cpp:596-661 | each son slot the parent takes is empty or holds one of the split's sons, and every son has a slot |
| QuadSplit.QuadToFour | hermes2d/src/mesh/mesh.cpp:529-572 | refinement 0 after the parent is retired: four sons on the corner lists above, `nactive` plus four, every hand-down row landing under a sound parent |
| QuadSplit.QuadToHorizontal | hermes2d/src/mesh/mesh.cpp:575-608 | refinement 1: sons (v0, v1, x1, x3) and (x3, x1, v2, v3), `nactive` plus two, the eight hand-downs land under a sound parent |
| QuadSplit.QuadToVertical | hermes2d/src/mesh/mesh.cpp:611-644 | refinement 2: sons (v0, x0, x2, v3) and (x0, v1, v2, x2) in slots 2 and 3, `nactive` plus two, the eight hand-downs land under a sound parent |
| QuadSplit.QuadMids | hermes2d/src/mesh/mesh.cpp:533-537 | x0 .. x3 sit between the ends of edges 0 .. 3 and mid between x0 and x2; under a sound parent each son's corners are apart |
| QuadSplit.QuadMidsApart | hermes2d/src/mesh/mesh.cpp:533-537 | in a sound quad the four mid-edge vertices are distinct, younger than their ends and none is a corner |
| QuadSplit.QuadKeysApart | hermes2d/src/mesh/mesh.cpp:565-571 | the twelve ends pairs the refinement-0 writes are registered under are pairwise different |
| QuadSplit.QuadWritesApart | hermes2d/src/mesh/mesh.cpp:565-571 | under a sound parent the twelve nodes refinement 0 writes are distinct, so no write overrides another |
| QuadSplit.HorizontalWritesApart | hermes2d/src/mesh/mesh.cpp:600-607 | under a sound parent the eight nodes refinement 1 writes are distinct |
| QuadSplit.VerticalWritesApart | hermes2d/src/mesh/mesh.cpp:636-643 | under a sound parent the eight nodes refinement 2 writes are distinct |
| QuadSplit.QuadTargets | hermes2d/src/mesh/mesh.cpp:565-571 | the refinement-0 table writes, son by son, the son edges on parent edges j and i and the mid-edge vertex on edge j |
| TriangleQuadSplit.RefineTriangleToQuads | hermes2d/src/mesh/mesh.cpp:1465-1693 | three quad sons (v0, x0, mid, x2), (x0, v1, x1, mid), (x1, v2, x2, mid) appended with parent links, the centre registered between x0 and v2 (see Findings), the parent retired with slots for the three sons, `nactive` plus two, every hand-down row landing under a sound parent; on failure the parent and counters are unchanged |
| TriangleQuadSplit.TriangleQuadMids | hermes2d/src/mesh/mesh.cpp:1472-1478 | the mid-edge vertices sit on the right edges, the centre between x0 and v2 at the centroid of x0, x1, x2; under a sound parent every son's corners are apart |
| TriangleQuadSplit.TriangleQuadSlots | hermes2d/src/mesh/mesh.cpp:1686 | the parent's first three son slots hold the three sons and every son has a slot |
| TriangleQuadSplit.CentreApart | hermes2d/src/mesh/mesh.cpp:1472-1475 | the centre node is none of the mid-edge vertices, whatever the parent |
| TriangleQuadSplit.TriangleQuadWritesApart | hermes2d/src/mesh/mesh.cpp:1671-1676 | under a sound parent the six son edges the split writes are distinct |
| QuadTriangleSplit.RefineQuadToTriangles | hermes2d/src/mesh/mesh.cpp:1709-1865 | the quad is retired (`nactive` minus one, kept on failure); on success it is cut along the v0–v2 diagonal unless that one is strictly longer, into (v0, v1, v2), (v2, v3, v0) or (v1, v2, v3), (v3, v0, v1), with parent links and two empty slots, `nactive` ending one up, and under a sound parent every row of the corrected hand-down table of that cut holds |
| QuadTriangleSplit.QuadTriangleHandDownsAsWritten | hermes2d/src/mesh/mesh.cpp:1837-1856 | the source's six boundary writes per cut, vertex 2 of son 1 on the v0–v2 cut reading parent edge 1 |
| QuadTriangleSplit.AsWrittenVertexOffEdge | hermes2d/src/mesh/mesh.cpp:1845 | the source's table differs from the corrected one in that row only, and that row gives corner v0 the flag of edge (v1, v2), which v0 does not end |
| QuadTriangleSplit.QuadTriangleVerticesOnEdges | hermes2d/src/mesh/mesh.cpp:1837-1856 | in the corrected tables of both cuts every vertex write takes the flag of a parent edge that ends at that vertex |
| QuadTriangleSplit.QuadTriangleTargetsApart | hermes2d/src/mesh/mesh.cpp:1837-1856 | under a sound parent the six nodes a cut writes are distinct |
| RefineApi.RefineElement | hermes2d/src/mesh/mesh.cpp:721-743 | `(e, kind)` is appended to the refinement log; on success the split for the element's shape and kind leaves the parent inactive with its son slots, older elements unchanged, the sons carrying the parent's marker, link and `iro_cache`, `nactive` up by the son count minus one and the mesh stamped; under a sound parent a failure is a shared coordinate |
| RefineApi.SonSlots | hermes2d/src/mesh/mesh.cpp:725-736 | the son slots of each split all hold its sons or are empty, and every son has a slot |
| RefineApi.RefineElementId | hermes2d/src/mesh/mesh.cpp:745-755 | kind -1 passes and changes nothing; a bad id, an unused element or an inactive one fails with its own error before anything changes; a live element is refined as `RefineElement` states |
| RefineApi.RefineElementToQuadsId | hermes2d/src/mesh/mesh.cpp:1695-1707 | the same id guards; a triangle becomes three quads (`nactive` plus two), a quad four (`nactive` plus three), nothing is logged and the mesh is stamped; the quad goes through `RefineQuad` at kind 0, which for straight elements makes the same sons in the same order and the same flag writes as `refine_quad_to_quads` |
| RefineApi.RefineElementToTrianglesId | hermes2d/src/mesh/mesh.cpp:1867-1879 | the same id guards; a live triangle passes with nothing changed and no stamp; a quad is cut into two triangles (`nactive` plus one) and the mesh stamped |
| RefineApi.MaxElementId | hermes2d/src/mesh/mesh.cpp:212-220 | -1 while the stamp is negative, otherwise the arena size |
| RefineApi.LiveLogCounts | hermes2d/src/mesh/mesh.cpp:768-769 | a sweep logs exactly as many entries as there are live elements, each naming a live element and the sweep's kind |
| RefineApi.SweepStep | hermes2d/src/mesh/mesh.cpp:768-769 | a live element is refined and logged, any other is left alone and not logged; the other older elements are unchanged |
| RefineApi.RefineAllElements | hermes2d/src/mesh/mesh.cpp:757-775 | `ninitial` takes the arena size; kind -1 stops there; otherwise every element live at the start is refined in id order and logged (the log grows by one entry per live element, in id order), every other older element is unchanged, sons appended during the sweep are not visited, and with `mark_as_initial` `ninitial` takes the final size |
| ParentMap.Roots | hermes2d/src/mesh/mesh.cpp:2695-2698 | every live element is its own entry, so the lineage holds at the start |
| ParentMap.AssignParent | hermes2d/src/mesh/mesh.cpp:2668-2680 | a son in slot `i` takes the entry of `e`; an empty slot changes nothing |
| ParentMap.AssignSons | hermes2d/src/mesh/mesh.cpp:2668-2680 | after the four calls every son of `e` has the entry of `e`, every other entry is unchanged, and no other key is added |
| ParentMap.LineageRefined | hermes2d/src/mesh/mesh.cpp:2678 | when a split element's sons take its entry, every live element still has an entry naming a live element of the starting mesh it descends from |
| Unrefine.UnrefineElementInternal | hermes2d/src/mesh/mesh.cpp:671-719 | `(e, -1)` is logged; every son slot is freed and the other elements are unchanged; `nactive` drops by the number of sons and rises by one; `e` is active again with no sons; with its corners apart each new edge node of `e` carries the flag and marker the son on that edge had; the stamp is kept |
| Unrefine.EdgeSonSlot | hermes2d/src/mesh/mesh.cpp:682 | the slot `get_edge_sons` names for edge i of a refined element, always one of the four slots |
| Unrefine.RemoveSons | hermes2d/src/mesh/mesh.cpp:689-702 | each son slot is freed in turn, every other element unchanged, `nactive` down by the number of sons |
| Unrefine.Relink | hermes2d/src/mesh/mesh.cpp:705-710 | `e` takes the registered edge nodes of its corners, becomes active with no sons, and `nactive` goes up by one |
| Unrefine.RestoreFlags | hermes2d/src/mesh/mesh.cpp:713-717 | with the corners apart, every restored edge node ends with the flag and marker read from the sons |
| Unrefine.UnrefineElementId | hermes2d/src/mesh/mesh.cpp:986-998 | a bad id or an unused element fails with its own error and changes nothing; every element in use succeeds; an active element passes unchanged; otherwise refined sons are unrefined first, then the element, which ends live with no sons, its sons' slots freed, `(id, -1)` last in the log and a fresh stamp; only unrefinement entries are added to the log; when all sons were active exactly one entry is added and exactly the sons change |
| Unrefine.UnrefineSons | hermes2d/src/mesh/mesh.cpp:992-994 | every non-null son is unrefined in slot order and no call fails; afterwards all sons are live and the element itself is untouched |
| Unrefine.UndoneTrans | hermes2d/src/mesh/mesh.cpp:992-996 | an unrefinement below `id` followed by one at `id` is again an unrefinement at `id`: only `id` and elements created after it change, nothing is deactivated or revived, and every freed slot belongs to a settled parent |
| UnrefineAll.UnrefinablesSpec | hermes2d/src/mesh/mesh.cpp:1005-1017 | the first loop lists exactly the used inactive elements whose non-null sons are all active (and, when keeping initial refinements, all at ids of at least `ninitial`), each once, in increasing order |
| UnrefineAll.FindUnrefinable | hermes2d/src/mesh/mesh.cpp:1003-1017 | the loop's list is exactly that specification list (empty while the stamp is negative) |
| UnrefineAll.SonsScan | hermes2d/src/mesh/mesh.cpp:1007-1014 | the four-slot scan's `found` holds exactly when the element qualifies |
| UnrefineAll.UnrefineAllElements | hermes2d/src/mesh/mesh.cpp:1000-1022 | every listed element ends live with no sons, every son of a listed element ends freed, every other element is unchanged; one `(id, -1)` entry and one stamp per listed element, in list order; no call fails |
| Criteria.RtvCriterion | hermes2d/src/mesh/mesh.cpp:801-807 | 0 exactly when the vertex is one of the element's corners, otherwise -1 |
| Criteria.RtbCriterion | hermes2d/src/mesh/mesh.cpp:817-848 | -1 exactly when no edge carries the marker and no corner is flagged; kinds 1 and 2 only for anisotropic quads, 1 only with the marker on edge 0 or 2, 2 only with it on edge 1 or 3 |
| Criteria.Internals | hermes2d/src/mesh/mesh.cpp:869 | the set of internal forms `get_internal_marker` gives the listed user markers |
| Criteria.Decide | hermes2d/src/mesh/mesh.cpp:789-790 | the area selector refines with its kind exactly an element whose marker is listed (or any with the wildcard); the vertex selector refines into four exactly an element with that corner |
| Criteria.CriterionKindFits | hermes2d/src/mesh/mesh.cpp:789-790 | a criterion only asks for a kind `refine_element` accepts for the element's shape |
| Criteria.SelLogEntries | hermes2d/src/mesh/mesh.cpp:787-791 | every entry a sweep logs names an element the criterion picked, with the kind it chose, in increasing id order |
| Criteria.SelLogComplete | hermes2d/src/mesh/mesh.cpp:787-791 | every element the criterion picks gets its entry in the sweep's log |
| Criteria.SelLogEmpty | hermes2d/src/mesh/mesh.cpp:787-791 | a sweep logs nothing exactly when the criterion picks no element |
| Criteria.SelectStep | hermes2d/src/mesh/mesh.cpp:788-791 | a visited element the criterion picks is refined with the chosen kind and logged; any other element is left alone, nothing is logged and nothing changes |
| Criteria.SelectPass | hermes2d/src/mesh/mesh.cpp:787-791 | every element live when the sweep starts is offered in id order and sons appended meanwhile are not visited; the log only grows by entries the criterion chose; on success every picked element is inactive and every other older element unchanged, and with a node-free criterion the log grows by exactly the sweep's picks; with an area kind that only triangles accept (neither 0 to 2 nor 3), the picked elements still accept it afterwards, since their sons are triangles; while the stamp is negative nothing happens |
| Criteria.SweptAll | hermes2d/src/mesh/mesh.cpp:787-791 | after a full sweep each older element is unchanged or was live and is now refined, and with a node-free criterion exactly the picked ones are refined |
| Criteria.RefinePasses | hermes2d/src/mesh/mesh.cpp:785-792 | `depth` sweeps in a row: no sweep for depth at most 0, the log only grows by kinds the criterion can choose, a single sweep is exactly `SelectPass`, `refined` tells whether the last sweep refined anything, and when the criterion picks nothing at the start every sweep of any depth of at least 1 changes nothing and `refined` is false |
| Criteria.RefineByCriterion | hermes2d/src/mesh/mesh.cpp:781-797 | `depth` sweeps of the criterion, then with `mark_as_initial` `ninitial` becomes the arena size (kept otherwise); with depth 1 the sweep is the one `SelectPass` describes; when the criterion picks nothing, no depth changes anything |
| Criteria.RefineTowardsVertex | hermes2d/src/mesh/mesh.cpp:809-815 | every logged kind is 0; with depth 1 the log grows by exactly the live elements with that corner, in id order, those become inactive and every other older element is unchanged |
| BoundaryRefine.MarkEdges | hermes2d/src/mesh/mesh.cpp:865-876 | the corners flagged for one element are exactly the ends of its edges carrying one of the markers |
| BoundaryRefine.EdgeEndsSpec | hermes2d/src/mesh/mesh.cpp:865-876 | a vertex is flagged by the first `j` edges exactly when it ends one of them that carries a marker |
| BoundaryRefine.MarkVertices | hermes2d/src/mesh/mesh.cpp:859-876 | `rtb_vert` is exactly the set of ends of marked edges of the live elements the scan visits, and `refined` holds exactly when there is such an edge |
| BoundaryRefine.MarkedVertsSpec | hermes2d/src/mesh/mesh.cpp:864-876 | a vertex is flagged exactly when it ends a marked edge of a live element below the scan's end |
| BoundaryRefine.NoMarkedVerts | hermes2d/src/mesh/mesh.cpp:864-876 | nothing is flagged exactly when no live element visited has a marked edge |
| BoundaryRefine.BoundaryPass | hermes2d/src/mesh/mesh.cpp:878 | one sweep of `rtb_criterion`: every older element is unchanged or was live and is now refined, only kinds the criterion can return are logged (1 and 2 only when anisotropic), and when nothing is touched nothing changes |
| BoundaryRefine.BoundarySteps | hermes2d/src/mesh/mesh.cpp:856-880 | the depth loop; with one step `refined` holds exactly when a live element has a marked edge, and without one nothing is refined |
| BoundaryRefine.RefineTowardsBoundary | hermes2d/src/mesh/mesh.cpp:850-886 | the list overload as intended: with one step the call fails with `NoMarkerFound` and refines nothing exactly when no live element has an edge with a listed marker; otherwise each older element is unchanged or refined; `ninitial` is set only with `mark_as_initial` |
| BoundaryRefine.RefineTowardsBoundaryAsWritten | hermes2d/src/mesh/mesh.cpp:850-886 | the list overload as written, the criterion comparing with a `rtb_marker` left by an earlier call: without a listed marker on any edge the call still fails, but the sweep before it may refine |
| BoundaryRefine.StaleMarkerRefinesInterior | hermes2d/src/mesh/mesh.cpp:869-878 | an interior triangle and marker 7: nothing is flagged and no edge carries 7, yet the criterion with the stale `rtb_marker` 0 refines the triangle, while with the listed marker it picks nothing |
| BoundaryRefine.RefineTowardsBoundaryNamed | hermes2d/src/mesh/mesh.cpp:895-927 | `rtb_marker` becomes the marker's internal form; with one step the call fails with `NoMarkerFound` and refines nothing exactly when no live element has an edge with it |
| BoundaryRefine.RefineTowardsAnyBoundary | hermes2d/src/mesh/mesh.cpp:890-892 | `HERMES_ANY`: the named form runs per table entry; with an empty table nothing happens; a table holding `HERMES_ANY` itself as a user name never passes (the program recurses forever there); `rtb_marker` ends as before or as one of the table's markers |
| BoundaryRefine.RefineTowardsBoundaryMarker | hermes2d/src/mesh/mesh.cpp:888-928 | the single-marker overload dispatches on `HERMES_ANY` and states what each case does, including that `HERMES_ANY` never passes when a user boundary marker is named `HERMES_ANY` |
| AreaRefine.ReadAreaMarkers | hermes2d/src/mesh/mesh.cpp:939-951 | `any_marker` holds exactly when `HERMES_ANY` is listed; otherwise the internal list has the internal form of each listed marker, in order |
| AreaRefine.AreaSelector | hermes2d/src/mesh/mesh.cpp:958-976 | an element is picked exactly when `HERMES_ANY` is listed or its marker is the internal form of a listed marker |
| AreaRefine.RefineInAreas | hermes2d/src/mesh/mesh.cpp:937-984 | every logged entry carries the requested kind; with depth 1 the log grows by exactly the picked live elements in id order, those are refined and every other older element is unchanged; with any depth of at least 1, when the markers pick no live element the call fails with `NoMarkerFound` and changes nothing, and a call that succeeds had a picked live element; with `mark_as_initial` a successful call sets `ninitial` to the arena size, otherwise `ninitial` is kept; the kind may be any one the picked elements accept, including kinds other than 0 to 3 on triangles over several sweeps, and kind 3 over several sweeps that pick nothing |
| AreaRefine.RefineInArea | hermes2d/src/mesh/mesh.cpp:930-935 | the one-marker form of `RefineInAreas`: its contract is that of `RefineInAreas` for the list `[marker]`, clause for clause (log, kinds, stamp, depth at most 0, the one-sweep outcome, `NoMarkerFound` for any depth of at least 1, `mark_as_initial`) |
| AreaRefine.AreaRefineCallsAsWritten | hermes2d/src/mesh/mesh.cpp:970-975 | as written the sweep makes one `refine_element` call per entry of the internal list equal to the element's marker, at least one exactly when the element is live and its marker listed |
| AreaRefine.DuplicateAreaMarker | hermes2d/src/mesh/mesh.cpp:970-975 | a marker listed twice makes two calls as written for a live element carrying it, while the corrected selector picks it once |
| EdgeDegrees.Degrees | hermes2d/src/mesh/mesh.cpp:2708-2738 | the degree of every edge of an element, in edge order |
| EdgeDegrees.IsoChoiceSpec | hermes2d/src/mesh/mesh.cpp:2705-2740 | the kind is -1 exactly when no edge is above the level; a triangle only gets 0; a quad gets 2 exactly when only the pair (0, 2) has an edge above, 1 exactly when only (1, 3) has, 0 when both have |
| EdgeDegrees.AnyOver | hermes2d/src/mesh/mesh.cpp:2708-2715 | the early-exit loop finds an edge above the level exactly when there is one |
| EdgeDegrees.ChooseIso | hermes2d/src/mesh/mesh.cpp:2705-2740 | the kind the loop computes, reading the degrees in the source's order, is the specified choice |
| EdgeDegrees.HalvesFlat | hermes2d/src/mesh/mesh.cpp:2421-2430 | an edge of degree 1 has a registered midpoint, and both halves have degree 0 |
| Regularize.InitialParents | hermes2d/src/mesh/mesh.cpp:2695-2698 | every live element is its own parent and nothing else has an entry (empty when the sweeps visit nothing) |
| Regularize.SettleVisit | hermes2d/src/mesh/mesh.cpp:2703-2747 | a live element with an edge above the level is refined with the kind `IsoChoice` reads from its edge degrees (its refinement is the one log entry added) and its sons inherit its parent; otherwise nothing changes and the element has no edge above the level; later elements are untouched and the parent map stays a lineage of the starting elements |
| Regularize.SettlePass | hermes2d/src/mesh/mesh.cpp:2700-2749 | one sweep: `ok` exactly when nothing was refined, and then no live element has an edge above the level; every refinement is logged with a kind from 0 to 2 and the stamp advances by one per refinement |
| Regularize.SettleLevels | hermes2d/src/mesh/mesh.cpp:2700-2749 | the `do ... while (!ok)` loop ends, when it passes, with no live element having an edge above the level; the parent map relates every element to the live element it came from |
| Regularize.SettleLevel | hermes2d/src/mesh/mesh.cpp:2689-2693 | a level below 1 becomes 1 and any other level is kept |
| Regularize.TransitionPass | hermes2d/src/mesh/mesh.cpp:2751-2761 | every element older than the loop is unchanged or was live and is now retired; the parent map stays a lineage |
| Regularize.TransitionVisit | hermes2d/src/mesh/mesh.cpp:2753-2760 | the visited element is unchanged or retired, and no other older element changes |
| Regularize.RegularizeMesh | hermes2d/src/mesh/mesh.cpp:2682-2766 | `regularize(n)`: for `n` at least 1, no live element is left with an edge above `n`; every live element has an entry in the returned parents, and every entry names a starting live element it descends from; every logged refinement has a kind from 0 to 2 |
| Transitions.LastBelow | hermes2d/src/mesh/mesh.cpp:2456-2457 | the last index holding the value, or 0 when none does |
| Transitions.LastPairBelow | hermes2d/src/mesh/mesh.cpp:2576-2577 | the last edge that, with the next edge, carries exactly one hanging node each, or 0 when there is none |
| Transitions.FindLast | hermes2d/src/mesh/mesh.cpp:2456-2457 | the search loop returns the last index holding the value |
| Transitions.FindAdjacentPair | hermes2d/src/mesh/mesh.cpp:2576-2577 | the search loop returns the last adjacent pair with one hanging node each |
| Transitions.CutEdges | hermes2d/src/mesh/mesh.cpp:2453-2506 | the edges whose midpoints a transitional split reads are edges of the element |
| Transitions.CutLayouts | hermes2d/src/mesh/mesh.cpp:2466-2591 | a transitional split makes two to four triangles |
| Transitions.CutSlots | hermes2d/src/mesh/mesh.cpp:2475-2505 | the four son slots hold exactly the new sons and otherwise null |
| Transitions.Cut | hermes2d/src/mesh/mesh.cpp:2453-2601 | on success the element is retired, its sons are the new triangles with the specified corners, `nactive` grows by the number of sons less one and the boundary flags and markers of the outer edges are handed down; under a sound parent it can only fail on a shared midpoint |
| Transitions.CutSons | hermes2d/src/mesh/mesh.cpp:2466-2478 | the triangles are appended in order, become the element's sons, and under a sound parent the outer edges keep the parent's flags |
| Transitions.AdoptCut | hermes2d/src/mesh/mesh.cpp:2469-2478 | the flags are handed down and the sons adopted without changing the counters |
| Transitions.CutCorners | hermes2d/src/mesh/mesh.cpp:2466-2591 | the corners of every son are vertex nodes, and under a sound parent no son has two equal corners |
| Transitions.CornersInTwo | hermes2d/src/mesh/mesh.cpp:2466-2467 | the triangle cut in two has vertex corners, pairwise distinct under a sound parent |
| Transitions.CornersInThree | hermes2d/src/mesh/mesh.cpp:2494-2496 | the triangle cut in three has vertex corners, pairwise distinct under a sound parent |
| Transitions.CornersQuadThree | hermes2d/src/mesh/mesh.cpp:2552-2554 | the quad cut in three has vertex corners, pairwise distinct under a sound parent |
| Transitions.CornersQuadFour | hermes2d/src/mesh/mesh.cpp:2588-2591 | the quad cut in four has vertex corners, pairwise distinct under a sound parent |
| Transitions.SoundFrom3 | hermes2d/src/mesh/mesh.cpp:2458-2459 | reading a sound triangle's corners from any corner gives a sound triangle |
| Transitions.SoundFrom4 | hermes2d/src/mesh/mesh.cpp:2543-2545 | reading a sound quad's corners from any corner gives a sound quad |
| Transitions.TwoApart | hermes2d/src/mesh/mesh.cpp:2466-2467 | the two sons have pairwise distinct corners |
| Transitions.ThreeApart | hermes2d/src/mesh/mesh.cpp:2494-2496 | the three sons have pairwise distinct corners |
| Transitions.QuadThreeApart | hermes2d/src/mesh/mesh.cpp:2552-2554 | the three sons of the quad have pairwise distinct corners |
| Transitions.QuadFourApart | hermes2d/src/mesh/mesh.cpp:2588-2591 | the four sons of the quad have pairwise distinct corners |
| Transitions.CutKeysApart | hermes2d/src/mesh/mesh.cpp:2469-2596 | the son edges that receive the parent's flags join different corner pairs, so no write overwrites another |
| Transitions.QuadKeysApart | hermes2d/src/mesh/mesh.cpp:2556-2596 | the same for the quad splits |
| Transitions.QuadThreeKeys | hermes2d/src/mesh/mesh.cpp:2557-2562 | the quad cut in three writes three different son edges |
| Transitions.QuadFourKeys | hermes2d/src/mesh/mesh.cpp:2593-2596 | the quad cut in four writes two different son edges |
| Transitions.CutSonsFit | hermes2d/src/mesh/mesh.cpp:2469-2596 | every hand-down row names an edge of a son, and under a sound parent the rows write distinct nodes |
| Transitions.MoveFits | hermes2d/src/mesh/mesh.cpp:2443-2623 | a refinement or nested move has a kind the element accepts; a nested move halves a quad by kind 1 or 2; a transitional split finds every midpoint it reads |
| Transitions.TriangleCutEdges | hermes2d/src/mesh/mesh.cpp:2453-2488 | the edges a triangle's split reads carry a hanging node |
| Transitions.QuadCutEdges | hermes2d/src/mesh/mesh.cpp:2539-2582 | the edges a quad's split reads carry a hanging node |
| Transitions.Carry | hermes2d/src/mesh/mesh.cpp:2443-2514 | the move is carried out as specified (keep, refine or transitional split), no other element changes and the sons inherit the parent entry |
| Transitions.CarryRefine | hermes2d/src/mesh/mesh.cpp:2445 | `refine_element_id` is logged, the element is refined into its son slots and the stamp advances by one |
| Transitions.CarryCut | hermes2d/src/mesh/mesh.cpp:2453-2514 | the transitional split is done as `Cut` states and the sons inherit the parent entry |
| Transitions.RegularizeTriangle | hermes2d/src/mesh/mesh.cpp:2432-2515 | the move the edge degrees pick is carried out; keep or a missing midpoint leaves the mesh unchanged |
| Transitions.ReadTriangleMove | hermes2d/src/mesh/mesh.cpp:2438-2506 | the branches on the edge degrees select the specified triangle move |
| Transitions.ReadQuadMove | hermes2d/src/mesh/mesh.cpp:2523-2623 | the branches on the edge degrees select the specified quad move |
| Transitions.RegularizeQuad | hermes2d/src/mesh/mesh.cpp:2517-2632 | the move the degrees pick is carried out; a nested move logs the halving first and fails only when out of fuel before it; other elements are unchanged |
| Transitions.NestQuad | hermes2d/src/mesh/mesh.cpp:2604-2622 | the quad is halved by the kind, retired with its son slots set, the halves regularized, and no other older element changes |
| Transitions.RegularizePair | hermes2d/src/mesh/mesh.cpp:2621-2622 | the two halves are regularized in turn and no other older element changes |
| Transitions.RegularizeElement | hermes2d/src/mesh/mesh.cpp:2757-2760 | a triangle goes to `regularize_triangle`, a quad to `regularize_quad`, with their promises |
| Transitions.TriangleMoveSpec | hermes2d/src/mesh/mesh.cpp:2438-2506 | with degrees at most 1: the triangle is kept exactly when no edge hangs, refined exactly when all three do, and otherwise cut along exactly the hanging edges |
| Transitions.QuadMoveSpec | hermes2d/src/mesh/mesh.cpp:2523-2623 | with degrees at most 1: kept exactly when none hangs, refined in four exactly when all do, halved by 2 or 1 exactly for the opposite pairs, nested exactly when three hang, and otherwise cut along exactly the hanging edges |
| Transitions.MovedRetires | hermes2d/src/mesh/mesh.cpp:2626-2631 | after a move that passes, the element is unchanged or retired, and it is unchanged with no new log entry exactly when the move was keep |
| EggShellLevels.Across | hermes2d/src/mesh/mesh.cpp:2874-2881 | the neighbours reported across an edge; none when the search reports nothing for it |
| EggShellLevels.Seeds | hermes2d/src/mesh/mesh.cpp:2838-2851 | the starting levels are 0 or 1 for every element |
| EggShellLevels.Layers | hermes2d/src/mesh/mesh.cpp:2854-2900 | the level array after the rounds 1 .. k has one entry per element |
| EggShellLevels.LayersBounds | hermes2d/src/mesh/mesh.cpp:2854-2900 | after k rounds every level lies in 0 .. k + 1, and level 1 is exactly the seeds |
| EggShellLevels.LayersKeep | hermes2d/src/mesh/mesh.cpp:2882-2895 | a level once set never changes in a later round |
| EggShellLevels.GrowReached | hermes2d/src/mesh/mesh.cpp:2858-2895 | a round changes only levels that had none, to `level + 1`, and only for an element some visited live element reaches across an edge |
| EggShellLevels.LayersSound | hermes2d/src/mesh/mesh.cpp:2854-2900 | every element at level l >= 2 lies across an interior edge of a live element at level l - 1 |
| EggShellLevels.LayersComplete | hermes2d/src/mesh/mesh.cpp:2854-2900 | every element across an interior edge of a live element at level l <= k has a level, at most l + 1 |
| EggShellLevels.NeighbourStep | hermes2d/src/mesh/mesh.cpp:2882-2895 | a neighbour already reached is skipped; any other takes level `level + 1` |
| EggShellLevels.ProgressStart | hermes2d/src/mesh/mesh.cpp:2858 | a round starts from the copied levels |
| EggShellLevels.EdgeStep | hermes2d/src/mesh/mesh.cpp:2866-2875 | the round moves on to the next edge after every neighbour across it, and at once past a boundary edge |
| EggShellLevels.ElementStep | hermes2d/src/mesh/mesh.cpp:2859-2866 | the round moves on to the next element after every edge of it, and at once past an element it does not visit |
| EggShellLevels.OnlyMarkedTrans | hermes2d/src/mesh/mesh.cpp:2884-2885 | two rounds of writes of the same marker to edge nodes are one |
| EggShellLevels.ShellStateClaim | hermes2d/src/mesh/mesh.cpp:2884-2895 | a new shell element at level `level + 1` keeps the search state: exactly the elements at level 2 or more carry the shell marker and are listed once |
| EggShellLevels.Claim | hermes2d/src/mesh/mesh.cpp:2884-2894 | the edge nodes on both sides may take `Eggshell-1`, the neighbour takes the `Eggshell` element marker, and nothing else changes |
| EggShellLevels.ShellEdge | hermes2d/src/mesh/mesh.cpp:2866-2896 | the loop over the neighbours across one edge computes the specified progress and keeps the search state |
| EggShellLevels.ShellVisit | hermes2d/src/mesh/mesh.cpp:2861-2898 | the visit of one element computes the specified progress and keeps the search state |
| EggShellLevels.ShellLevel | hermes2d/src/mesh/mesh.cpp:2858-2899 | one round yields the specified levels and keeps the search state |
| EggShellLevels.ShellLevels | hermes2d/src/mesh/mesh.cpp:2854-2900 | the rounds yield the specified levels; the elements listed are exactly those at level 2 or more, each once, and they alone take the `Eggshell` marker |
| EggShellLevels.Listed | hermes2d/src/mesh/mesh.cpp:2840-2848 | the marker test holds exactly when the marker is requested |
| EggShellLevels.Targets | hermes2d/src/mesh/mesh.cpp:2819-2827 | one internal marker per requested user marker, each its internal form |
| EggShellLevels.ReadTargets | hermes2d/src/mesh/mesh.cpp:2819-2827 | the lookup succeeds exactly when every requested marker is known, and then yields their internal forms in order |
| EggShellLevels.SeedLevels | hermes2d/src/mesh/mesh.cpp:2835-2851 | the starting levels are 1 exactly for the live elements with a requested marker |
| EggShellLevels.RegisterShellMarkers | hermes2d/src/mesh/mesh.cpp:2811-2813 | `Eggshell-1` and `Eggshell-inner` are boundary markers and `Eggshell` an element marker afterwards, and the ints returned are their internal forms |
| EggShellLevels.EggShellStructures | hermes2d/src/mesh/mesh.cpp:2809-2903 | fails exactly when `levels < 1` or (otherwise) a requested marker is unknown, changing no element and no node then; on success the levels are the specified layers, the listed elements are live, are exactly those at level 2 or more, and alone take the `Eggshell` marker, and edge nodes only take `Eggshell-1` |
| EggShellLevels.ShellSearch | hermes2d/src/mesh/mesh.cpp:2829-2900 | the search from known markers yields the specified layers and a list of live elements with the search state kept |
| EggShellPrune.ParentsOlderOk | hermes2d/src/mesh/mesh.cpp:2912-2916 | in a valid mesh every parent is older than its son, so the walks up the parent links end |
| EggShellPrune.DescendsBelow | hermes2d/src/mesh/mesh.cpp:2912-2916 | an ancestor is never newer than its descendant |
| EggShellPrune.DescendsTrans | hermes2d/src/mesh/mesh.cpp:2912-2916 | descent through parent links is transitive |
| EggShellPrune.DescendsSame | hermes2d/src/mesh/mesh.cpp:2909-2930 | changes that keep every parent link keep descent, both ways |
| EggShellPrune.Chain | hermes2d/src/mesh/mesh.cpp:2911-2916 | the walk keeps the length of the element table |
| EggShellPrune.ChainStart | hermes2d/src/mesh/mesh.cpp:2911 | before the walk moves, only the element itself is written |
| EggShellPrune.ChainNext | hermes2d/src/mesh/mesh.cpp:2912-2916 | each step of the walk writes exactly one more ancestor, the parent |
| EggShellPrune.SetChain | hermes2d/src/mesh/mesh.cpp:2911-2916 | the element and all its ancestors, and nothing else, take the given `used` flag; nodes, tables and counters are unchanged |
| EggShellPrune.RetiredByNext | hermes2d/src/mesh/mesh.cpp:2909-2917 | one more id of the first loop retires exactly the ancestors of that element when it is live |
| EggShellPrune.RetiredHead | hermes2d/src/mesh/mesh.cpp:2909-2911 | an element is still untouched when the first loop reaches it |
| EggShellPrune.RetiredLiveStep | hermes2d/src/mesh/mesh.cpp:2909-2917 | a live element's walk is one step of the first loop |
| EggShellPrune.RetiredIdleStep | hermes2d/src/mesh/mesh.cpp:2909 | an element that is not live is skipped by the first loop |
| EggShellPrune.RetireLive | hermes2d/src/mesh/mesh.cpp:2909-2917 | each live element and its ancestors leave use |
| EggShellPrune.RevivedStep | hermes2d/src/mesh/mesh.cpp:2920-2930 | one shell element's walk is one step of the second loop |
| EggShellPrune.ReviveShell | hermes2d/src/mesh/mesh.cpp:2918-2930 | each shell element and its ancestors come back into use and `nactive` is the number of shell elements |
| EggShellPrune.PrunedSpec | hermes2d/src/mesh/mesh.cpp:2909-2930 | after both loops the shell elements and their ancestors are in use, a live element that is no ancestor of a shell element is not, only `used` flags change, and an element on neither kind of chain is unchanged |
| EggShellPrune.UnderBelow | hermes2d/src/mesh/mesh.cpp:3029-3035 | a subtree only holds elements at least as new as its root |
| EggShellPrune.UnderSame | hermes2d/src/mesh/mesh.cpp:3029-3035 | changes that keep every son link keep the subtrees |
| EggShellPrune.Touch | hermes2d/src/mesh/mesh.cpp:3024-3038 | the element comes into use, takes the marker exactly when it was unused and active, and keeps everything else |
| EggShellPrune.DownAllTree | hermes2d/src/mesh/mesh.cpp:3022-3039 | marking down keeps the son and parent links and the corners |
| EggShellPrune.DownAllAdd | hermes2d/src/mesh/mesh.cpp:3006 | marking down from one more root composes with the earlier ones, in any order |
| EggShellPrune.UnderSons | hermes2d/src/mesh/mesh.cpp:3029-3038 | marking down an inactive element marks down its sons' subtrees and then sets its own `used` |
| EggShellPrune.UnderActive | hermes2d/src/mesh/mesh.cpp:3024-3038 | marking down an active element touches it alone |
| EggShellPrune.MarkDown | hermes2d/src/mesh/mesh.cpp:3022-3039 | `mark_elements_down_used`: the subtree comes into use and its unused active elements take the marker; nothing else changes |
| EggShellPrune.MarkSons | hermes2d/src/mesh/mesh.cpp:3031-3035 | the loop over the son slots marks down every non-null son's subtree |
| EggShellPrune.SonStep | hermes2d/src/mesh/mesh.cpp:3033-3034 | one son slot: a non-null son is newer and its subtree is marked down; a null slot changes nothing |
| EggShellPrune.SonsNext | hermes2d/src/mesh/mesh.cpp:3031-3035 | the sons seen grow by the slot when it is not null |
| EggShellPrune.WalkReadyOk | hermes2d/src/mesh/mesh.cpp:2998-3013 | a valid mesh has what the upward walks need |
| EggShellPrune.WalkErrors | hermes2d/src/mesh/mesh.cpp:2998-3015 | a walk fails only by passing the root without finding the edge (the `assert(processed)`) or by a missing corner |
| EggShellPrune.WalkFound | hermes2d/src/mesh/mesh.cpp:2998-3009 | a walk that succeeds ends at the parent of an element on the chain whose parent owns the edge |
| EggShellPrune.WalkNone | hermes2d/src/mesh/mesh.cpp:2998-3013 | a walk that passes the root met no element on the chain whose parent owns the edge |
| EggShellPrune.WalkSame | hermes2d/src/mesh/mesh.cpp:2998-3013 | the walk reads only parents, corners and the nodes' reference counts, so marking down and marker writes do not change it |
| EggShellPrune.WalkUp | hermes2d/src/mesh/mesh.cpp:2996-3015 | the loop up the parent links computes the specified walk |
| EggShellPrune.ElemRootsNext | hermes2d/src/mesh/mesh.cpp:2984-3017 | one more edge adds its owning ancestor when it hangs, and the element fails exactly when a hanging edge's walk fails |
| EggShellPrune.ShellNext | hermes2d/src/mesh/mesh.cpp:2982-3019 | one more shell element adds the ancestors of its hanging edges; one failing element fails the whole |
| EggShellPrune.RootsOwnEdges | hermes2d/src/mesh/mesh.cpp:2982-3013 | every ancestor marked down owns a hanging edge of a shell element through an element on its chain |
| EggShellPrune.FixEdge | hermes2d/src/mesh/mesh.cpp:2986-3016 | a hanging edge marks down from the ancestor the walk finds, fails with the walk's error and changes nothing when the walk fails, and an edge that does not hang changes nothing |
| EggShellPrune.FixStep | hermes2d/src/mesh/mesh.cpp:2984-3017 | one edge read on the partly marked elements gives the same hanging test and walk as on the starting ones, and extends the marking by its root |
| EggShellPrune.FixHangingNodes | hermes2d/src/mesh/mesh.cpp:2976-3020 | `Eggshell-0` is registered without moving other markers; the call fails exactly when some hanging edge of a shell element has a failing walk, with that walk's error; on success the elements are the starting ones marked down from every owning ancestor with the `Eggshell` marker; links are kept |
| EggShellPrune.FixShell | hermes2d/src/mesh/mesh.cpp:2982-3019 | the loops over the shell elements and their edges, with the same promises |
| EggShellPrune.FixElement | hermes2d/src/mesh/mesh.cpp:2984-3018 | the edge loop of one shell element, with the same promises for that element |
| EggShellMesh.SealingTrans | hermes2d/src/mesh/mesh.cpp:2939-2973 | the changes the edge-marking loop allows compose over several edges |
| EggShellMesh.CoveredKept | hermes2d/src/mesh/mesh.cpp:2939-2973 | an edge that is boundary or marked `Eggshell-inner` stays so under later edges of the loop |
| EggShellMesh.SealedEdge | hermes2d/src/mesh/mesh.cpp:2945-2971 | one edge of the marking loop keeps the node table's length |
| EggShellMesh.SealedEdgeSeals | hermes2d/src/mesh/mesh.cpp:2945-2971 | after one edge that edge is boundary or marked `Eggshell-inner`, and nodes changed only as the loop allows: markers only to `Eggshell-inner` or `Eggshell-0`, boundary nodes left alone, and a new boundary edge carrying `Eggshell-1` or `Eggshell-0` |
| EggShellMesh.FindVolume | hermes2d/src/mesh/mesh.cpp:2948-2960 | the neighbour loop finds a neighbour with the `Eggshell` element marker exactly when there is one |
| EggShellMesh.MarkBoundaryEdge | hermes2d/src/mesh/mesh.cpp:2966-2971 | the edge node and both its ends become boundary and nothing else changes |
| EggShellMesh.SealEdge | hermes2d/src/mesh/mesh.cpp:2943-2972 | the body of the marking loop for one edge does what the specified edge step says |
| EggShellMesh.SealElement | hermes2d/src/mesh/mesh.cpp:2941-2972 | after the edges of an element, every one of them is boundary or marked `Eggshell-inner` |
| EggShellMesh.SealStep | hermes2d/src/mesh/mesh.cpp:2943-2972 | one edge step on the mesh keeps the allowed changes and covers that edge |
| EggShellMesh.EdgesCoveredKept | hermes2d/src/mesh/mesh.cpp:2939-2973 | an element whose edges are covered stays covered under later steps |
| EggShellMesh.SealAll | hermes2d/src/mesh/mesh.cpp:2939-2973 | after the marking loop every edge of every live element is boundary or marked `Eggshell-inner`, elements and tables are unchanged, and nodes changed only as allowed |
| EggShellMesh.Restored | hermes2d/src/mesh/mesh.cpp:3041-3048 | `fix_markers` changes only element markers |
| EggShellMesh.FixMarkers | hermes2d/src/mesh/mesh.cpp:3041-3048 | every live element takes the marker of the same element in the original mesh, and nothing else changes |
| EggShellMesh.MarkersApart | hermes2d/src/mesh/mesh.cpp:2934-2936 | distinct boundary marker names registered in a table have distinct internal forms, so `Eggshell-inner`, `Eggshell-1` and `Eggshell-0` differ |
| EggShellMesh.Pruned | hermes2d/src/mesh/mesh.cpp:2909-2930 | the two `used` loops keep the element table's length |
| EggShellMesh.PruneShell | hermes2d/src/mesh/mesh.cpp:2909-2930 | the live elements and their ancestors leave use, the shell and its ancestors return, and `nactive` is the size of the shell |
| EggShellMesh.SealPhase | hermes2d/src/mesh/mesh.cpp:2934-2973 | the marker lookups return the internal forms of `Eggshell-inner`, `Eggshell-1`, `Eggshell-0` and `Eggshell`, pairwise distinct among the boundary three, with the tables unchanged; then every live element's edges are covered |
| EggShellMesh.MakeEggShellMesh | hermes2d/src/mesh/mesh.cpp:2905-2974 | it fails exactly when a hanging edge's walk fails; on success the elements are the pruned ones marked down from every owning ancestor, every live element's edges are boundary or marked `Eggshell-inner`, `nactive` is the size of the shell and the element marker table is unchanged |
| EggShellMesh.NoScanNoShell | hermes2d/src/mesh/mesh.cpp:2838-2900 | with no element to scan, no element reaches level 2 and the shell is empty |
| EggShellMesh.PrunedKeeps | hermes2d/src/mesh/mesh.cpp:2909-3048 | after the whole operation an element differs from the original only in `used`, and a shell element is live |
| EggShellMesh.ShellFit | hermes2d/src/mesh/mesh.cpp:2854-2900 | the search changes no element's edges, so a neighbour map that fit still fits |
| EggShellMesh.KeepsAllButUse | hermes2d/src/mesh/mesh.cpp:2909-3048 | the same for every element, and every element at level 2 or more is live at the end |
| EggShellPrune.SkeletonReady | hermes2d/src/mesh/mesh.cpp:2998-3013 | changes that keep parents and corners keep what the upward walks need and the element table's length |
| EggShellPrune.ElemAlike | hermes2d/src/mesh/mesh.cpp:2984-3017 | the owning ancestors found for one element, and whether its walks succeed, do not depend on `used` flags or markers |
| EggShellPrune.ShellRootsAlike | hermes2d/src/mesh/mesh.cpp:2982-3019 | the same for the owning ancestors of the whole shell |
| EggShellPrune.ShellOkAlike | hermes2d/src/mesh/mesh.cpp:2982-3019 | the same for whether every walk of the shell succeeds |
| EggShellMesh.PrunedAlike | hermes2d/src/mesh/mesh.cpp:2909-2930 | the two `used` loops change only `used` flags, and two element tables that differ only in markers and `used` still do after them |
| EggShellMesh.InShellMeshOfPruned | hermes2d/src/mesh/mesh.cpp:2909-3020 | run on the pruned mesh after the search, the hanging-edge pass succeeds exactly when it would on the original mesh, and marks down exactly the elements under ancestors found on the original mesh |
| EggShellMesh.ShellOnOriginal | hermes2d/src/mesh/mesh.cpp:2829-3020 | the search's element table reads like the original for the walks: they succeed on one exactly when on the other |
| EggShellMesh.UseOnOriginal | hermes2d/src/mesh/mesh.cpp:2905-3048 | after the whole operation an element is in use exactly when the pruning of the original keeps it or it lies under an ancestor found on the original |
| EggShellMesh.GetEggShell | hermes2d/src/mesh/mesh.cpp:2786-2807 | fewer than two levels fail and change nothing; otherwise an unknown marker fails; past the search the shell is exactly the elements at level 2 or more, each once, and the call fails exactly when a hanging edge of a shell element has a failing walk on the original mesh; on success `nactive` is the size of the shell, every element keeps all but its `used` flag (its original marker comes back), an element is in use exactly when the pruning leaves it in use or it lies under an ancestor owning a hanging edge of the shell, shell elements are live, and every edge of every live element is boundary or marked `Eggshell-inner` |
| EggShellMesh.EggShellOnCopy | hermes2d/src/mesh/mesh.cpp:2793-2806 | the body after the level check, with the same promises, the search's errors and the used set stated on the original mesh |
| EggShellMesh.ShellAndRestore | hermes2d/src/mesh/mesh.cpp:2800-2804 | `make_egg_shell_mesh` then `fix_markers`: it fails exactly when a hanging edge's walk fails on the original mesh; on success `nactive` is the size of the shell, elements keep all but `used`, the used elements are those the pruning keeps plus the subtrees of the owning ancestors, the shell is live and the edges of live elements are covered |
| EggShellMesh.GetEggShellOne | hermes2d/src/mesh/mesh.cpp:2774-2784 | the one-marker form: the list form on that marker, with the same promises (the prune, the used set, `nactive` and the errors) |
| MeshModel.Mesh.AddElement | hermes2d/src/mesh/mesh.cpp:323-356 | a new active element with the given marker and corners is appended, its edge nodes are found or created and every node it names gains a reference; the counters are unchanged |
| MeshModel.Mesh.UnrefNode | hermes2d/src/mesh/mesh.cpp:450 | the node loses one reference; at zero it is no longer used and drops out of its hash table; nothing else changes |
| MeshModel.Mesh.UnrefNodes | hermes2d/src/mesh/mesh.cpp:450 | every listed node loses one reference in turn, as `UnrefNode` states |
| MeshRefine.TriangleSplitShape | hermes2d/src/mesh/mesh.cpp:414-440 | the four sons are the corner triangles and the middle triangle of the midpoints |
| MeshRefine.TriangleSonsApart | hermes2d/src/mesh/mesh.cpp:437-440 | under a sound parent no son has two equal corners |
| QuadSplit.QuadSons | hermes2d/src/mesh/mesh.cpp:533-559 | the four midpoints and the centre are midpoints of the right node pairs; on success four quads with the specified corners are appended and, under a sound parent, their hand-down rows write distinct nodes |
| QuadSplit.QuadToSons | hermes2d/src/mesh/mesh.cpp:529-644 | on success the sons of the kind are appended and take the son slots, the split has the specified shape, `nactive` grows by the number of sons and the parent's flags are handed down; on failure older elements and counters are unchanged |
| QuadSplit.QuadSonsApart | hermes2d/src/mesh/mesh.cpp:556-559 | under a sound parent no son of the split in four has two equal corners |
| Criteria.PassStep | hermes2d/src/mesh/mesh.cpp:788-791 | one element of a sweep: the log grows only by selected entries, the sweep state advances by one, and an element the criterion passes over changes nothing |

## Left out

- Memory layout: the node and element arrays are append-only sequences; freed slots are never reused and the `parents` array of `regularize` is a map, so its size and reallocation are not modelled.
- Curved elements: `CurvMap`, `get_mid_edge_points`, `update_refmap_coeffs` and the curved-element exception of `regularize` are not modelled; every element is straight.
- Geometry: node coordinates are exact `real`s. New midpoints and centres get the exact averages of their ends (`MeshModel.Mesh.GetVertexNode`, and the centroid in `TriangleQuadSplit.TriangleQuadMids`), so the program's floating-point rounding is not modelled; the floating-point checks `initial_single_check`, `check_triangle`, `check_quad`, `is_convex`, `same_line`, `vector_length`, `calc_bounding_box` and `rescale` are not modelled.
- The conversions `convert_quads_to_triangles`, `convert_to_base` and `convert_*_to_base` go through files and curved maps, and the caches `element_on_physical_coordinates` and `get_marker_area` wrap classes that are not part of this model; none of them is modelled.
- Mesh loading and saving, `Mesh::create`, `copy`, `copy_base`, `copy_converted`, the free functions `get_vertex_node()` and `get_edge_node()` and the `HashTable` implementation are not part of this model; `MeshModel.Mesh.AddVertex` stands in for creating top-level vertices, with reference count `TopLevelRef` = 123456. That constant is defined outside `mesh.cpp`.
- `HERMES_ANY` is defined outside the modelled files; the model fixes it to the string "-1234" (`Criteria.HermesAny`).
- `g_mesh_seq` is global state. It becomes the `stamp` parameter and result of the refining operations. The `rtb_*` globals of the boundary criterion become parameters as well.
- `NeighborSearch` is not part of this model. The egg-shell operations take the neighbours across each edge as maps (`nb` for the search, `nbOut` for the final marking).
- `get_egg_shell` works on a `copy()` of the mesh; the model runs on the mesh it is given, which stands for that copy.
- Regularize.RegularizeMesh: `flatten()`, which `regularize` runs after the transition loop (for `n` below 1), compacts the element array to the active elements, renumbers them and resets `nbase` and `nactive`; the model stops before it, so its ids are those before the compaction.
- Logging, verbose output, timing, `n_element_guess` and the allocation sizes of the egg-shell element list are left out.
- `get_num_active_elements` and the other plain getters are not modelled; `nactive` is a field.
- MeshModel.Mesh.CreateTriangle: as written `create_triangle` and `create_quad` add the element before they check the corners and throw, so a failed call leaves a half-built element behind. The model leaves the element table unchanged on failure.
- MeshModel.Mesh.CreateQuad: the same as `CreateTriangle`.
- QuadSplit.RefineQuad: a kind outside 0 .. 2 reaches `assert(0)` in the source; the model requires a kind from 0 to 2.
- TriangleQuadSplit.RefineTriangleToQuads: the source copies only three son slots and leaves the fourth undefined; the model leaves slot 3 null.
- Unrefine.EdgeSonSlot: it follows `get_edge_sons` only for the splits that keep local edge numbering (triangle into four, quad into four or two).
- AreaRefine.RefineInAreas: requires every live element the markers pick to accept the kind, as `refine_quad` does only for 0 to 2 (`assert(0)` otherwise), and kind 3 over more than one sweep only when nothing is picked, since the first sweep turns the picked triangles into quads with the same marker that the second would pass to `refine_quad` with kind 3. A mesh whose sequence number is negative is accepted with any kind, as its sweeps visit nothing.
- AreaRefine.RefineInArea: the same requirement as `RefineInAreas`.
- Unrefine.UnrefineElementId: requires every refined element to have its sons in use and its edge sons present (`AllUndoable`), an invariant every unrefinement keeps. A mesh that breaks it is not modelled.
- Criteria.RtbCriterion: the contract bounds the kind and ties -1, 1 and 2 to marked edges, but does not say when an anisotropic quad gets 0 rather than 1 or 2.
- Criteria.RefinePasses: with depth above 1 it states only the kinds logged, the stamp and progress, not which elements each later pass refines.
- BoundaryRefine.BoundarySteps: the same weaker statement for depth above 1.
- Criteria.RefineByCriterion: the `mark_as_initial` default comes from a header that is not part of this model and is taken to be false.
- Regularize.TransitionPass: it states only that older elements are unchanged or retired and that the lineage is kept, not that no hanging node remains.
- Regularize.RegularizeMesh: the `do ... while` loop and the nesting of `regularize_quad` end for geometric reasons the model does not track, so both carry a `fuel` bound and fail with `OutOfFuel` when it runs out. For `n` below 1 the result after the transition loop is not stated beyond the lineage and the log.
- Transitions.RegularizeTriangle: where the source would dereference a null midpoint node or son, the model fails with `MissingMidpoint`. Its sons also get the `parent` back-link described under `Transitions.Cut`.
- EggShellPrune.FixHangingNodes: `assert(processed)` becomes the error `UnmatchedHangingEdge`, and a walk that reads a corner a triangle lacks (`vn[3]`) becomes `MissingVertex`. Its hanging test reads reference counts, as described under `EggShellPrune.FixEdge`.
- Transitions.Cut: the source makes the triangles of a transitional split with `create_triangle`, which leaves their `parent` null (mesh.cpp:334), and records the split only in the `parents` array of `regularize` (through `assign_parent`). The model also sets each son's `parent` to the split element, because `Mesh.Valid()` asks every son to point back at it; the `parents` map is written as in the source. A walk up the `parent` links, such as the one in `fix_hanging_nodes`, therefore goes on past a transitional son where the program stops.
- Transitions.CutSons: the same `parent` back-link as `Transitions.Cut`.
- Transitions.AdoptCut: the same `parent` back-link as `Transitions.Cut`.
- Transitions.CarryCut: the same `parent` back-link as `Transitions.Cut`.
- Transitions.Carry: the same `parent` back-link as `Transitions.Cut`, for the transitional moves.
- Transitions.RegularizeQuad: the same `parent` back-link as `Transitions.Cut`.
- Transitions.RegularizeElement: the same `parent` back-link as `Transitions.Cut`.
- BoundaryRefine.RefineTowardsAnyBoundary: when a boundary marker's user name is the `HERMES_ANY` string itself, the program's loop calls the single-marker overload with it, which is the `HERMES_ANY` case again, and recurses without end after refining towards the earlier markers; the model reports `EndlessRecursion` on reaching that entry.
- BoundaryRefine.RefineTowardsBoundaryMarker: the same `EndlessRecursion` result as `RefineTowardsAnyBoundary`.
- OrderCodec.GetHOfMakeQuad: Dafny's `int` does not wrap, while `H2D_MAKE_QUAD_ORDER` shifts `v` left by 5 in a 32-bit `int` (global.h:109); for the program the round-trips hold only while `v` lies in -2^26 .. 2^26 - 1.
- OrderCodec.GetVOfMakeQuad: the same 32-bit bound as `GetHOfMakeQuad`.
- OrderCodec.MakeQuadOfParts: the same 32-bit bound as `GetHOfMakeQuad`.
- OrderCodec.MakeQuadInjective: the same 32-bit bound as `GetHOfMakeQuad`.
- EggShellPrune.FixEdge: the source tests an edge node's neighbour slots, `elem[0] && elem[1]` for an edge with elements on both sides (mesh.cpp:2991) and `elem[0] || elem[1]` for a parent edge with any element (mesh.cpp:3004). The model (`Hanging`, `EdgeUsed`, `WalkUp`) reads the reference count instead, `ref >= 2` and `ref >= 1`, taking an edge node's `ref` to equal its number of non-null `elem` slots. `Node::ref_element` and `unref_element` keep that outside this model.
- Failed operations: after a failure (for example a failed son creation inside a split) the mesh is only promised to stay valid, plus whatever each contract states about the failed case.

## Findings

| source | as written | input that shows it | evidently intended | confidence | as-written member | corrected member |
|---|---|---|---|---|---|---|
| hermes2d/src/mesh/mesh.cpp:1475 | the centre of a triangle split into quads is looked up under the key of x0 and v1 | any triangle: the centre is then registered as the midpoint of the edge (x0, v1) of son 1, so son 1 has a corner that is the midpoint of its own edge and that edge counts as already split | a key no son edge uses, such as x0 and v2 | not executed | MeshData.AsWrittenCentreBreaksSon1 | MeshData.TriangleQuadSonsSound |
| hermes2d/src/mesh/mesh.cpp:869-878 | `refine_towards_boundary` with a list of markers never sets `rtb_marker`, so `rtb_criterion` compares against a stale value | an interior triangle with the list {7}: `rtb_marker` still 0 matches the interior edges, and the triangle is refined although no edge carries 7 | the criterion uses the markers just listed | not executed | BoundaryRefine.StaleMarkerRefinesInterior | BoundaryRefine.RefineTowardsBoundary |
| hermes2d/src/mesh/mesh.cpp:970-975 | the area sweep calls `refine_element` once per matching entry of the marker list, with no break | the same marker listed twice: two calls on one live element, the second on an element no longer active | refine each picked element once | not executed | AreaRefine.DuplicateAreaMarker | AreaRefine.RefineInAreas |
| hermes2d/src/mesh/mesh.cpp:1845 | in the first diagonal case `quad_to_triangles` sets the boundary flag of `sons[1]->vn[2]`, which is v0, from `bnd[1]` | any quad cut along v0–v2: v0 does not lie on edge 1 (v1, v2) | the flag of an edge the vertex lies on, `bnd[3]` | not executed | QuadTriangleSplit.AsWrittenVertexOffEdge | QuadTriangleSplit.QuadTriangleVerticesOnEdges |
