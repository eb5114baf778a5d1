# ggml tensor byte size and its brute-force inverse, in Dafny

This project models the two pieces of exact integer arithmetic in the
ggml-nbytes scripts and proves properties about them.

* `ggml_nbytes` (nbytes.py) gives the byte footprint of a 4-dimensional
  strided ggml tensor from its element counts `ne`, its byte strides `nb` and
  its element type. It uses the type's block size and block byte size, which
  two resolvers (`ggml_blck_size`, `ggml_type_size`) read from the type-trait
  table. A string placeholder in a field resolves to 32.
  * With block size 1 the size is `type_size + Σ_{i<4} (ne[i]-1)*nb[i]`.
  * Otherwise it is `ne[0]*nb[0] // blck_size + Σ_{1<=i<4} (ne[i]-1)*nb[i]`.
* `find_tensor_configurations` (reverse_nbytes.py) searches the other way.
  For every type that is not deprecated or removed, it tries fixed 1D, 2D and
  3D shape/stride patterns over bounded ranges. It keeps, in enumeration
  order, the patterns whose `ggml_nbytes` equals a target byte count.

Files and modules:

| file | module | what it holds |
|---|---|---|
| `wrappers.dfy` | `Wrappers` | `Option`, `Result` (the error paths) |
| `type_traits.dfy` | `TypeTraits` | trait fields (`Concrete(n)` / `Marker(text)`), the table as an ordered sequence of `(key, trait)` entries, lookup, the two resolvers |
| `nbytes.dfy` | `NBytes` | Python floor division, the formula, the accumulating loop, `ggml_nbytes` by type name, formula lemmas |
| `search.dfy` | `Search` | candidate enumeration in `range`/`itertools.product` order, the filter, the per-type scan, the loop over the table |
| `search_properties.dfy` | `SearchProperties` | soundness, completeness, shape patterns, ordering, skip rule, failure, monotonicity, closed forms |

Error paths are values, not preconditions.
* An unknown type name is `Failure(UnknownType(name))`. Python raises `KeyError` there.
* A block size of 0 on the quantised branch is `Failure(ZeroDivision)`. Python raises `ZeroDivisionError` there.
* A search that meets such a type fails as a whole, because the Python exception escapes `find_tensor_configurations`.

Nothing in the formula is sanitised. Zero and negative dimensions or strides
give whatever integer the formula yields, and block sizes below 0 use
Python's floor division.

Two facts about the code are worth stating plainly:
* Axis 0 of the quantised branch uses Python's floor division `//`, which rounds toward minus infinity. For a negative product this differs from truncation (`NBytes.QuantisedAxisZeroFloors`).
* The 3D axes run over `range(1, min(max_dim, 32))`, so over `1 .. min(max_dim, 32) - 1`.

## Model

| member | source | states |
|---|---|---|
| TypeTraits.Lookup | nbytes.py:12 | `type_traits[key]` finds the first entry stored under the key; it is absent exactly when no entry has that key |
| TypeTraits.BlckSize | nbytes.py:11-13 | `ggml_blck_size` fails with `UnknownType(key)` exactly when the key is not in the table |
| TypeTraits.TypeSize | nbytes.py:15-17 | `ggml_type_size` fails with `UnknownType(key)` exactly when the key is not in the table |
| TypeTraits.ResolversReadEntry | nbytes.py:11-17 | in a table with distinct keys, both resolvers return 32 for a string placeholder and the stored integer otherwise, read from the entry under that key |
| NBytes.FloorDiv | nbytes.py:26 | Python `a // b` is the floor of the quotient for either sign of `b`: `b*q <= a < b*q + b` for `b > 0`, reversed for `b < 0` |
| NBytes.ExactFloorDiv | nbytes.py:26 | `(b*s) // b == s` for every non-zero `b` |
| NBytes.Formula | nbytes.py:19-29 | the formula fails, with a zero division, exactly when the block size is 0 |
| NBytes.ComputeNBytes | nbytes.py:19-29 | the accumulating loop over the axes (all four for block size 1, axes 1..3 after the block-divided axis 0 otherwise) computes the axis-by-axis formula |
| NBytes.GgmlNBytes | nbytes.py:19-29 | `ggml_nbytes` by type name: `UnknownType` exactly for a missing name, `ZeroDivision` exactly for block size 0, otherwise the formula on the resolved block and type sizes |
| NBytes.UnitDimsGiveTypeSize | nbytes.py:21-24 | with block size 1 and `ne = [1,1,1,1]` the result is the type size, whatever the strides |
| NBytes.OneBlockGivesStride | nbytes.py:25-28 | with block size `B` other than 0 and 1, `ne = [B,1,1,1]` and `nb[0] = S`, the result is exactly `S` |
| NBytes.QuantisedFixture | nbytes.py:5-9 | block size 32, `ne = {96,96,96,64}`, `nb = {10,1,1,1}` gives 0x11b |
| NBytes.UnquantisedFixture | nbytes.py:21-24 | block size 1, type size 4, the same shape and strides give 1207 |
| NBytes.QuantisedAxisZeroFloors | nbytes.py:26 | axis 0 of the quantised branch floors (a product of -1 in 32-element blocks gives -1, not 0); `ne = [64,1,1,1]` with unit strides gives 2 |
| NBytes.AxisIncrement | nbytes.py:23-28 | one more element on axis `i` adds exactly `nb[i]`, for axes 1..3 always and for axis 0 when the block size is 1 |
| NBytes.OnlyFirstFourAxes | nbytes.py:4 | entries of `ne`/`nb` beyond `GGML_MAX_DIMS = 4` never change the result |
| Search.Line1D | reverse_nbytes.py:32-34 | the 1D loop yields `[d,1,1,1] / [1,1,1,1]` for exactly the `d` in range, in increasing order, one per value |
| Search.Row2D | reverse_nbytes.py:44-46 | the inner loop of the 2D product yields `[d1,d2,1,1] / [1,d1,1,1]` for exactly the `d2` in range, in increasing order |
| Search.Grid2D | reverse_nbytes.py:44-46 | `product(possible_dims, repeat=2)` yields each 2D pair once, `d1` outermost, lexicographically ordered, `n*n` candidates in all |
| Search.Line3D | reverse_nbytes.py:56-58 | the innermost loop of the 3D product yields `[d1,d2,d3,1] / [1,d1,d1*d2,1]` for exactly the `d3` in range, in order |
| Search.Plane3D | reverse_nbytes.py:56-58 | the middle loop of the 3D product yields each `(d2, d3)` once, lexicographically ordered |
| Search.Cube3D | reverse_nbytes.py:56-58 | the 3D product yields each triple once, `d1` outermost, lexicographically ordered, `k*k*k` candidates in all |
| Search.ScansOrdered | reverse_nbytes.py:31-65 | every 1D candidate is tried before every 2D one, and every 2D one before every 3D one |
| Search.Candidates | reverse_nbytes.py:20-58 | the candidates tried per type are exactly the 1D sizes and 2D pairs in `1..max_dim` and the 3D triples in `1..min(max_dim,32)-1`, in strict enumeration order, none at all when `max_dim < 1` |
| Search.Matches | reverse_nbytes.py:35-41 | scanning a candidate list keeps exactly the candidates whose byte count is the target, in order for an ordered candidate list, and fails exactly when some evaluation fails |
| Search.SearchType | reverse_nbytes.py:29-65 | one type's 1D, 2D and 3D scans together keep exactly the hitting candidates, in enumeration order; they fail exactly when `max_dim >= 1` and the type's block size is 0 |
| Search.Contains | reverse_nbytes.py:26 | Python `sub in s` holds exactly when `sub` occurs at some position of `s` |
| Search.FindFrom | reverse_nbytes.py:25-68 | the loop over the table from one entry on lists only searched types with matches, each with exactly its hitting candidates, lists every searched type that has one, and (given distinct table keys) lists no name twice |
| Search.FindConfigurations | reverse_nbytes.py:16-76 | the whole search: sound and complete per listed type, each type name listed at most once (as a dictionary key, given distinct table keys), and failing (with a zero division) exactly when `max_dim >= 1` and some searched type has block size 0 |
| SearchProperties.ListedEntry | reverse_nbytes.py:67-68 | a listed type has at least one match, its matches are in enumeration order, and it is a searched entry of the table |
| SearchProperties.InMatches | reverse_nbytes.py:35-60 | a configuration is among a listed type's matches exactly when it is a candidate whose byte count for that type is the target |
| SearchProperties.CandidateShape | reverse_nbytes.py:31-58 | the candidate set is exactly the three fixed patterns with their ranges |
| SearchProperties.Soundness | reverse_nbytes.py:35-60 | every reported configuration, fed back to `ggml_nbytes` with its type, gives exactly the target |
| SearchProperties.ShapePatterns | reverse_nbytes.py:31-58 | every reported configuration is `[d,1,1,1]/[1,1,1,1]`, `[d1,d2,1,1]/[1,d1,1,1]` or `[d1,d2,d3,1]/[1,d1,d1*d2,1]`, with its dimensions in the searched ranges |
| SearchProperties.Completeness | reverse_nbytes.py:20-60 | every candidate of a searched type that hits the target is reported under that type's key |
| SearchProperties.Ordering | reverse_nbytes.py:31-65 | within a type, 1D matches precede 2D ones, which precede 3D ones; within a shape the order is lexicographic with the leftmost dimension outermost; nothing is reported twice |
| SearchProperties.OnlyTypesWithMatches | reverse_nbytes.py:67-68 | a type is listed only when it has at least one match |
| SearchProperties.SkippedNeverListed | reverse_nbytes.py:25-27 | in a table with distinct keys, a deprecated or removed entry never appears in the result |
| SearchProperties.OccurrenceStartsWithFirst | reverse_nbytes.py:26 | helper for `SkipRule`: an occurrence of `sub` at position `i` starts with `sub`'s first character |
| SearchProperties.SkipRule | reverse_nbytes.py:26 | four example names show the skip test matching `DEPRECATED` exactly and `REMOVED` anywhere in the name, case-sensitively (`DEPRECATED`, `Q4_2 (REMOVED)` skipped; `f32`, `deprecated` kept) |
| SearchProperties.NonPositiveMaxDim | reverse_nbytes.py:20-56 | with `max_dim <= 0` there are no 1D, 2D or 3D candidates and the search returns nothing |
| SearchProperties.OneDEqualsTwoDWithUnitRow | reverse_nbytes.py:33-46 | `[d,1,1,1]/[1,1,1,1]` and `[d,1,1,1]/[1,d,1,1]` have the same byte count for every type |
| SearchProperties.OneDMatchHasTwoDTwin | reverse_nbytes.py:33-48 | every 1D match `d` comes with the 2D match `[d,1,1,1]/[1,d,1,1]` |
| SearchProperties.CandidatesGrow | reverse_nbytes.py:20-56 | the candidates for `max_dim = N` are among those for `N + 1` |
| SearchProperties.MatchSetGrows | reverse_nbytes.py:35-60 | a type's matches over the candidates for `N` are among its matches over those for `N + 1` |
| SearchProperties.ListedAgain | reverse_nbytes.py:20-68 | a type listed for `max_dim = N` is listed for `N + 1` |
| SearchProperties.MatchesKept | reverse_nbytes.py:20-68 | under the same type name, the search for `N + 1` reports every configuration found for `N` |
| SearchProperties.Monotone | reverse_nbytes.py:20-68 | if the search for `N + 1` succeeds, so does the one for `N`, and every type and match it reports is reported again |
| SearchProperties.UnquantisedPatterns | nbytes.py:21-24 | with block size 1 the three patterns are dense row-major layouts: type size plus element count minus one |
| SearchProperties.QuantisedPatterns | nbytes.py:25-28 | with another non-zero block size, axis 0 counts `d1 // blck` and the other axes add raw strides |
| SearchProperties.UnquantisedOneDHitReported | reverse_nbytes.py:32-36 | for a block-size-1 type of type size `S`, the 1D size `target - S + 1` is reported whenever it lies in `1..max_dim` |
| SearchProperties.UnquantisedOneDOnlyHit | reverse_nbytes.py:32-36 | for such a type, no other 1D size is ever reported |

## Left out

- Console I/O: the `input` prompts, `print` tables and colorama setup in both scripts, and both `main` functions. They carry no logic.
- `format_bytes` in both scripts. It only formats for display, with floating-point division.
- nbytes_rainbow.py. It is a fixed-grid driver that calls `ggml_nbytes` and prints or stores the results.
- JSON dumping, timestamped file names, and the `ValueError` handling of user input in `main`.
- The contents of the trait table. `ggml_type_traits.py` is not part of this model, so a table is any ordered sequence of `(key, trait)` entries.
- Trait fields that are neither an integer nor a string. Python would return such a value unchanged; the model has only `Concrete(int)` and `Marker(string)`.
- NBytes.GgmlNBytes: requires `ne` and `nb` to have at least four entries. Python raises `IndexError` on shorter lists, and every caller passes four.
- Search.FindConfigurations: returns the result dictionary as a sequence of `(key, matches)` pairs. That the pairs follow the table order (the dictionary's insertion order) is not stated as a lemma.
- Search.FindConfigurations: `max_dim` is an explicit argument; the Python default of 128 is not modelled.
- SearchProperties.SkippedNeverListed: assumes distinct keys, as a Python dictionary guarantees. A sequence with a repeated key could list a skipped entry's key through a searched twin.
