# rustgraphs SimpleGraph, modelled in Dafny

This project models the core of the `rustgraphs` crate (`src/lib.rs`). That core is a directed graph
`SimpleGraph<T>`, stored as a forward and a backward adjacency store. The id type `T` is one of `u8`,
`u16`, `u32` or `u64`. The model covers three parts of it:

- **Loading from an edge file** (`from_edge_file`). Each line is trimmed. A line whose trimmed text
  starts with `#` is skipped. Any other line must hold exactly two whitespace-separated fields. Each
  field is parsed as a `u128` and must fit the id width. The accepted edges, in file order, build the
  forward store. The same edges with each pair swapped build the backward store.
- **The queries** `nv`, `ne`, `outneighbors` and `degree`.
- **The level-synchronous breadth-first search `bfs`.** It works in these steps:
  - It computes the largest out-degree over the vertices `1..n`. This range is empty, and `bfs`
    fails, when the graph has at most one vertex.
  - It allocates a `visited` bit set and a `levels` array filled with the sentinel `T::max_value()`.
  - It marks the source, labels it 0 and pushes it on the current frontier.
  - Level by level, it marks and labels every unvisited out-neighbour of the current frontier and
    pushes it on the next frontier. Then it clears the current frontier, swaps the two buffers and
    sorts the new current frontier.

The model is arranged in these modules:

- `NodeIds`: the id width and its largest value.
- `Adjacency`: the external adjacency store, seen through the contract the graph uses:
  - `dim`, `row`, `row_len` and `n`;
  - a reference construction `FromEdges`, with rows grouped by source vertex in edge-list order;
  - the swapped edge list `Reversed`.
- `EdgeParse`: the per-line logic of the loader, over strings:
  - `str::trim` and `split_whitespace`, with Unicode whitespace;
  - `u128` parsing, which accepts an optional leading `+`;
  - `ParseLine`, and `ParseEdges` for a whole file given as its lines.
- `Frontier`: sorted frontiers, `sort_unstable` as a method (an insertion sort), and duplicate-free
  sequences, used for the log of every vertex the search pushes.
- `Reach`: the reference meaning of a BFS result, with these parts:
  - `Within(m, src, k)`, the vertices reachable by at most `k` arcs;
  - `AtDistance`, and walks;
  - `IsLevelArray`: the sentinel exactly at the unreachable vertices, and the distance from the source
    everywhere else.
- `Graphs`: the `SimpleGraph` queries, the loader `FromEdgeLines`, and `Bfs`.
  - `Bfs` is written imperatively: `visited` and `levels` are arrays, and the frontiers are
    sequences that are cleared, swapped and sorted at each level.
  - `Bfs` is split into `StartSearch`, `NextLevel` (one pass of the `while` loop), `ExpandFrontier`
    (the `for v in cur_level` loop) and `MarkNeighbours` (the `for i in outneighbors(v)` loop).
  - Each of these is proved against the `Searching` invariant and the `Reach` definitions.

The panics of the source become `Err` results:

- a bad line, in the loader;
- a vertex count too large for `T`, or a vertex that is not in the graph, in the queries;
- an empty degree range, or a source that is not a vertex, in `bfs`.

`ne` counts the stored arcs. `NeIsDegreeSum` states that this is the sum of the out-degrees, and
`AssembleNe` that for a loaded graph it is the number of edges in the list, duplicates included.

## Model

| member | source | states |
|---|---|---|
| Graphs.Bfs | src/lib.rs:87-136 | Fails with the empty-degree-range error exactly when there are at most one vertex, and with the invalid-source error exactly when there are more and `src` is not a vertex. Otherwise the result is the level array of `src`: one entry per vertex, `levels[src] == 0`, the sentinel exactly at the vertices unreachable from `src`, the shortest distance elsewhere, and every finite level below `nv` |
| Graphs.Search | src/lib.rs:96-135 | For a valid source the arrays and loop produce a level array of `src` with `levels[src] == 0` and finite levels below `nv` |
| Graphs.StartSearch | src/lib.rs:96-110 | Fresh `visited` and `levels` of length `nv`; only the source is visited and labelled 0; the frontier is `[src]`; the search invariant holds at level 1 |
| Graphs.NextLevel | src/lib.rs:113-134 | One outer-loop pass keeps the search invariant one level up: `visited` marks exactly the labelled vertices, each vertex has been pushed at most once, labels are the distances, the new `cur_level` is sorted and holds exactly the vertices at distance `n_level - 1`, and `next_level` is empty |
| Graphs.ExpandFrontier | src/lib.rs:114-127 | The new frontier holds exactly the vertices unvisited before and labelled now; a vertex is newly labelled exactly when it is an out-neighbour of the frontier, and then with the current level; labelled vertices keep their label; one push per new vertex |
| Graphs.MarkNeighbours | src/lib.rs:115-126 | Appends to `next_level` exactly the unvisited listed neighbours, marks and labels them with the current level, leaves other labels unchanged, and pushes each vertex at most once |
| Graphs.SearchDone | src/lib.rs:113-135 | When the frontier is empty, the labels form the level array of `src` |
| Graphs.SimpleGraph.Nv | src/lib.rs:58-60 | Succeeds exactly when the store's dimension fits the id width, and returns that dimension |
| Graphs.SimpleGraph.OutNeighbors | src/lib.rs:66-72 | Succeeds exactly for a vertex of the graph, and then returns the stored row itself: the out-neighbours in store order, a repeated edge listed again |
| Graphs.SimpleGraph.Degree | src/lib.rs:74-80 | Succeeds exactly for a vertex of the graph; equals the length of its out-neighbour row |
| Graphs.SimpleGraph.MaxDegree | src/lib.rs:92-95 | Nothing when the vertex range is empty; otherwise an out-degree of some vertex in the range that no vertex in the range exceeds |
| Graphs.AssembleValid | src/lib.rs:52-55 | `Assemble` (the end of `from_edge_file`): a loaded graph's forward and backward stores are well formed, have the same dimension, and hold each arc in opposite directions |
| Graphs.AssembleNe | src/lib.rs:62-64 | `ne` of a loaded graph is the number of edges listed |
| Graphs.NeIsDegreeSum | src/lib.rs:62-64 | `ne` of any graph is the sum of the out-degrees of its vertices |
| Graphs.AssembleOutNeighbors | src/lib.rs:52-55 | In a loaded graph `w` is an out-neighbour of `u` exactly when the edge `u -> w` was listed |
| Graphs.AssembleNv | src/lib.rs:58-60 | For a non-empty edge list, `nv` succeeds exactly when every listed id is below the width's largest value |
| Graphs.NvOverflowExample | src/lib.rs:58-60 | A `u8` graph listing vertex 255 has 256 vertices, so `nv` fails |
| Graphs.FromEdgeLines | src/lib.rs:30-56 | A file whose lines fail to parse yields the error of the first failing line; otherwise the graph assembled from the edges in file order and their swapped copies |
| Graphs.ReadEdges | src/lib.rs:33-51 | The line loop returns exactly what `ParseEdges` specifies for the file |
| Adjacency.Reversed | src/lib.rs:52 | The backward list has the same length, and entry `i` is forward entry `i` swapped |
| Adjacency.ReversedTwice | src/lib.rs:52 | Swapping twice gives back the forward list |
| Adjacency.ReversedHas | src/lib.rs:52 | `u -> w` is listed forwards exactly when `w -> u` is listed backwards |
| Adjacency.DestsHas | src/lib.rs:53 | The row built for `v` lists `w` exactly when the edge `v -> w` is in the list |
| Adjacency.FromEdgesArcs | src/lib.rs:53-54 | `FromEdges` (`GraphMatrix::from_edges`): the built store is well formed (every neighbour is a vertex) and holds exactly the listed arcs |
| Adjacency.FromEdgesDim | src/lib.rs:53 | The dimension is one more than the largest id listed |
| Adjacency.FromEdgesCount | src/lib.rs:53 | The built store's arc count is the number of edges listed |
| Adjacency.BackwardDim | src/lib.rs:52-54 | The backward store has the forward store's dimension |
| Adjacency.BackwardMirrorsForward | src/lib.rs:52-54 | Same dimension, and `w` is a forward out-neighbour of `u` exactly when `u` is a backward out-neighbour of `w` |
| EdgeParse.TrimSpec | src/lib.rs:36 | `Trim` (`str::trim`): the result is the slice of the line left after dropping a whitespace-only run at each end, and is empty or starts and ends with a character that is not whitespace |
| EdgeParse.TrimStartSkip | src/lib.rs:36 | Leading trim drops exactly a leading whitespace run |
| EdgeParse.TrimStartSpec | src/lib.rs:36 | Leading trim removes a whitespace-only prefix and stops at a non-whitespace character |
| EdgeParse.TrimEndSpec | src/lib.rs:36 | Trailing trim removes a whitespace-only suffix and stops at a non-whitespace character |
| EdgeParse.TokenEndSpec | src/lib.rs:40 | A token runs up to the first whitespace character or the end |
| EdgeParse.FieldsOfSpaced | src/lib.rs:40 | `Fields` (`split_whitespace`): fields free of whitespace, with any whitespace-only runs before, after and (non-empty) between them, split back into exactly those fields in order |
| EdgeParse.FieldsOfTrim | src/lib.rs:36-40 | Splitting the trimmed line gives the same fields as splitting the line |
| EdgeParse.FieldsSpec | src/lib.rs:40 | Every field is non-empty and holds no whitespace |
| EdgeParse.FieldsOfUnwords | src/lib.rs:40 | Splitting space-joined fields gives the fields back |
| EdgeParse.ParseU128Rejects | src/lib.rs:46-47 | `ParseU128` (`parse::<u128>`): the empty string, a lone `+`, and a string with any character other than a digit or a leading `+` fail; a parsed value is below 2^128 |
| EdgeParse.ParseLeadingZero | src/lib.rs:46-47 | A leading zero does not change the parsed value |
| EdgeParse.ParseDecimal | src/lib.rs:46-47 | A decimal numeral below 2^128, with or without a leading `+`, parses to its value |
| EdgeParse.ParseLineOutcomes | src/lib.rs:36-50 | `ParseLine`: a line is skipped exactly when its trimmed text starts with `#`. It yields an edge exactly when it is not a comment, has two fields, and both parse and fit the id width; the edge is the two parsed values. Every other line is an error |
| EdgeParse.BlankLineRejected | src/lib.rs:36-41 | A blank or whitespace-only line is not skipped; it fails for want of a first field |
| EdgeParse.WrongFieldCountRejected | src/lib.rs:40-45 | A non-comment line with zero, one, or three or more fields fails with the matching error |
| EdgeParse.LineRoundTrip | src/lib.rs:36-50 | A formatted in-range edge parses back to itself |
| EdgeParse.SpacedLineRoundTrip | src/lib.rs:36-50 | An in-range edge written with any whitespace before, between (at least one character) and after its two numerals parses back to itself |
| EdgeParse.TabbedLineExample | src/lib.rs:36-50 | The line `\t3\t\t4 ` yields the edge `3 -> 4` |
| EdgeParse.NotCommentAfterWhitespace | src/lib.rs:36-39 | A line whose first non-whitespace character is a digit is not skipped as a comment |
| EdgeParse.CommentExample | src/lib.rs:37-39 | `# comment` is skipped |
| EdgeParse.ExtraFieldExample | src/lib.rs:43-45 | `1 2 3` fails with the extra-fields error |
| EdgeParse.CollectOutcome | src/lib.rs:33-51 | `Collect`: the outcomes of the lines succeed together exactly when every line succeeds, and then give the edges of the edge lines in line order, one per edge line, so a repeated edge line gives a repeated edge; otherwise the error of the first failing line |
| EdgeParse.ParseEdgesOutcome | src/lib.rs:33-51 | `ParseEdges`: a file loads exactly when every line parses, and then gives the edges of its edge lines in file order, one per edge line, repeats included; otherwise it fails with the error of its first failing line |
| EdgeParse.CollectInOrder | src/lib.rs:33-51 | A successful collection is the edges of the edge lines, listed by increasing line index, each edge line contributing exactly one entry |
| EdgeParse.CollectSplit | src/lib.rs:34-51 | Collecting two runs of outcomes is collecting each: the first error wins, otherwise the edges concatenate |
| EdgeParse.ParseEdgesSplit | src/lib.rs:34-51 | Loading a file in two pieces is loading it whole: edges stay in file order and the first error wins |
| EdgeParse.CommentLineIgnored | src/lib.rs:37-39 | Inserting a comment line anywhere in a file changes nothing |
| EdgeParse.ErrorPersists | src/lib.rs:41-49 | Once a prefix of the file fails, the whole file fails with that error |
| EdgeParse.EdgesRoundTrip | src/lib.rs:33-51 | In-range edges written one per line load back as the same list, in order |
| Frontier.SortAscending | src/lib.rs:133 | The sorted frontier is ascending, has the same length, and is a permutation of the old one |
| Frontier.Insert | src/lib.rs:133 | Inserting into a sorted frontier keeps it sorted and adds exactly that vertex |
| Frontier.DistinctBelow | src/lib.rs:118-124 | Distinct vertex ids below `n` number at most `n`, which bounds the pushes by `nv` |
| Reach.HasArcFromAppend | src/lib.rs:114-115 | Scanning one more frontier vertex adds exactly its out-neighbours to those found |
| Reach.RoundStartInitial | src/lib.rs:105-110 | Only the source labelled 0, with frontier `[src]`, is the correct state before the first level |
| Reach.LayerStepAt | src/lib.rs:114-124 | An unlabelled vertex is an out-neighbour of the frontier exactly when it is within `n_level` arcs of the source |
| Reach.LayerStep | src/lib.rs:114-127 | Labelling exactly the unlabelled out-neighbours of the frontier with `n_level` labels exactly the vertices within `n_level` arcs, each with its distance |
| Reach.RoundNext | src/lib.rs:113-134 | After such a round, the vertices it labelled are exactly those at distance `n_level`, so they are the next frontier |
| Reach.Settled | src/lib.rs:113-135 | When no vertex is at the last level, the labels are a level array: every reachable vertex is labelled |
| Reach.WithinSettles | src/lib.rs:113 | Once a round adds no vertex, no later round does |
| Reach.LevelArrayUnique | src/lib.rs:87-136 | Two level arrays of the same source are equal, so the BFS result is determined by the graph and source |
| Reach.SourceAtZero | src/lib.rs:108 | The source is at level 0 in any level array |
| Reach.LevelHasParent | src/lib.rs:118-124 | Every vertex at level `k > 0` has an in-arc from a vertex at level `k - 1` |
| Reach.LevelIsShortestWalk | src/lib.rs:113-134 | A finite level is the length of a walk from the source and no shorter walk reaches the vertex; the sentinel is exactly at vertices no walk reaches |
| Reach.WalkEndWithin | src/lib.rs:113-134 | A walk of `k` arcs from the source ends within `k` arcs |
| Reach.WithinHasWalk | src/lib.rs:113-134 | Every vertex within `k` arcs ends a walk from the source of at most `k` arcs |

## Left out

- `src/main.rs` is not part of this model: argument handling, reading the file, timing with a clock and floating-point averages.
- `src/traits.rs` only declares traits. The id type `T` is modelled as a `Width` value with its largest value; ids are `nat`s.
- Opening and reading the file (`File::open`, `BufReader::lines`, read errors) is left out. A file is its sequence of lines.
- The internals of `graph_matrix::GraphMatrix` are left out. The store is a sequence of rows, and `FromEdges` is a reference construction with the contract the graph relies on. An empty edge list is taken to give dimension 0.
- `Bfs`, `Search`, `StartSearch`: require that every stored neighbour id is a vertex (`WellFormed`). This is what the external builder guarantees, and it makes the unchecked accesses at `src/lib.rs:118-124` safe. The `bitvec` bit set is an array of booleans.
- `Bfs`: requires `nv` to be below `T::max_value()`, so the model has no case for `n_level + 1` overflowing `T`. The inputs it excludes are these.
  A store whose dimension is above `T::max_value()` makes the source panic in `nv` (`src/lib.rs:59`, called at `src/lib.rs:91`) before any level is written; the model's `Nv` returns that error, but `Bfs` is not specified for it.
  A store whose dimension equals `T::max_value()` runs normally in the source. It overflows only at the final `n_level` increment (`src/lib.rs:128`), and only when the search reaches depth `nv - 1`. Every real level stays below the sentinel, so `Bfs` could specify such graphs, but this model leaves them out.
- `Bfs`: the `maxdeg` value is only a capacity hint for `reserve`, so capacity is not modelled; only the failure on an empty degree range is kept.
- `Frontier.SortAscending`: `sort_unstable` is modelled by its contract (ascending and a permutation). The insertion sort that meets it is not the standard library's algorithm.
- `Graphs.SimpleGraph.Degree`: returns a `nat`, so a conversion of the row length into a narrow `T` is not modelled.
- `Graphs.SimpleGraph.OutNeighbors`, `Graphs.SimpleGraph.Degree`: a vertex outside the store is modelled as an error. The store's own behaviour for such an index is not part of this model.
- The `Display` implementation (`src/lib.rs:139-146`) is left out: it only formats two counts.
- `EdgeParse.ParseU128`: models `str::parse::<u128>` as an optional `+` followed by one or more ASCII digits with a value below 2^128. The standard library's parser itself is not modelled.
