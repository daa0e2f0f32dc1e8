# Expansion-state store of json-explorer, in Dafny

json-explorer shows a JSON value as a tree whose nodes can be expanded and
collapsed. A node is addressed by its path, a sequence of string segments
descending from the root; `[]` is the root. The store in `src/lib/stores.ts`
keeps the list of paths that are currently expanded, and the path currently
being edited. It has two operations:

- `expandPath(path)` appends the root and every prefix of `path`, ending with
  `path` itself, to the list, so that the node and all its ancestors show as
  expanded.
- `collapsePath(path)` drops every entry that has `path` as a segment-wise
  prefix, that is `path` and all of its descendants. Strict ancestors,
  siblings and unrelated paths stay, in their original order.

Files:

- `paths.dfy`, module `Paths`: the `Path` type, the segment-wise prefix
  relation `IsPrefix`, the specification functions `Prefixes` (what expanding
  adds) and `Collapsed` (what collapsing leaves), and the lemmas about them.
- `stores.dfy`, module `Stores`: the loops of the source as methods proved
  against those functions (`PathsToAdd`, the `for` loop that builds
  `pathsToAdd`; `KeepsEntry`, the filter predicate with its early returns;
  `CollapseEntries`, the filter itself), and the class `ExpansionStore`
  whose fields `expanded` and `editPath` stand for the two writable stores
  `expandedModelPaths` and `editModelPath`. Each store `update` callback is
  the old-list to new-list transformation the class method writes back into
  `expanded`.

Two points of the source are kept exactly:

- Deduplication. `_.uniq` compares its elements with SameValueZero, which for
  arrays is reference identity, and the prefixes are fresh arrays made by
  `slice`. Two value-equal paths are therefore never merged, and the model
  appends plainly: `expanded == old(expanded) + Prefixes(path)`. Only
  membership and order are claimed, never value-level uniqueness.
- Segment comparison. The collapse filter compares segment by segment, so
  collapsing `["a"]` leaves `["ab"]` alone (`Paths.CollapseIsSegmentwise`).

The store in `src/lib/stores.ts` is a list of segment sequences, not a map
from joined string keys to booleans, and a collapse compares whole segments,
not string prefixes of a joined key. Collapsing the root empties the list
because every path has `[]` as a prefix (`Paths.CollapseRootEmpties`).

## Model

| member | source | states |
|---|---|---|
| `Stores.PathsToAdd` | src/lib/stores.ts:9-12 | the list built is exactly `Prefixes(path)`: the root, then `path[..1]` up to `path[..|path|]` |
| `Stores.KeepsEntry` | src/lib/stores.ts:21-29 | the filter predicate keeps an existing path exactly when `path` is not a segment-wise prefix of it |
| `Stores.CollapseEntries` | src/lib/stores.ts:20-31 | the filtered list is exactly `Collapsed(existingPaths, path)` |
| `Stores.ExpansionStore.constructor` | src/lib/stores.ts:4-6 | both stores start as empty lists |
| `Stores.ExpansionStore.ExpandPath` | src/lib/stores.ts:8-16 | the new list is the old one followed by the prefixes of `path`; old entries keep their place at the front; the root, every prefix and `path` are present; nothing but old entries and prefixes of `path` is present; `editPath` is unchanged |
| `Stores.ExpansionStore.CollapsePath` | src/lib/stores.ts:18-33 | the new list is `Collapsed(old list, path)`; an entry is present exactly when it was present and does not lie under `path`; the result is an order-preserving subsequence no longer than the old list; collapsing the root empties it; `editPath` is unchanged |
| `Paths.IsPrefixBySegments` | src/lib/stores.ts:21-29 | an entry lies under `p` exactly when it is at least as long and agrees with `p` at every index below `|p|`; it is kept exactly when it is shorter or differs at some index below `|p|` |
| `Paths.TextualPrefixIsNotPathPrefix` | src/lib/stores.ts:24-28 | `["ab"]` and `["ab", "c"]` do not lie under `["a"]`, while `["a", "b"]` does |
| `Paths.PrefixesOrdered` | src/lib/stores.ts:9-12 | the added paths start at the root, have lengths 0 to `|p|` in increasing order, end with `p`, and each is a prefix of every later one |
| `Paths.PrefixesAreAllPrefixes` | src/lib/stores.ts:9-12 | a path is among the added ones exactly when it is a prefix of `p` |
| `Paths.ExpandedMembership` | src/lib/stores.ts:9-15 | after appending, the old list is unchanged at the front, the root, `p` and every prefix of `p` are present, and an entry is present exactly when it was before or is a prefix of `p` |
| `Paths.CollapsedMembership` | src/lib/stores.ts:20-30 | an entry survives a collapse of `p` exactly when it was present and `p` is not its prefix |
| `Paths.CollapsedRemovesDescendants` | src/lib/stores.ts:21-29 | every survivor was present and is shorter than `p` or differs from it below `|p|`; so neither `p` nor a descendant survives |
| `Paths.CollapsedKeepsNonDescendants` | src/lib/stores.ts:21-27 | every present entry shorter than `p`, or differing from it at an index below `|p|`, survives |
| `Paths.CollapsedIsSubsequence` | src/lib/stores.ts:20-31 | the survivors are an order-preserving subsequence of the old list |
| `Paths.SubsequenceOfLonger` | src/lib/stores.ts:20-31 | appending to a list keeps every subsequence of it a subsequence |
| `Paths.SubsequenceLength` | src/lib/stores.ts:20-31 | a subsequence is never longer than its list |
| `Paths.CollapsedNotLonger` | src/lib/stores.ts:20-31 | a collapse never lengthens the list |
| `Paths.CollapseRootEmpties` | src/lib/stores.ts:24-29 | collapsing the root `[]` leaves the empty list |
| `Paths.CollapseIdempotent` | src/lib/stores.ts:18-33 | collapsing the same path twice gives what collapsing it once gives |
| `Paths.CollapseUnrelatedUnchanged` | src/lib/stores.ts:20-31 | when no entry lies under `p`, collapsing `p` leaves the list exactly as it was |
| `Paths.CollapsedSnoc` | src/lib/stores.ts:20-31 | collapsing a list with one more entry at the end gives the collapse of the list, followed by that entry exactly when it does not lie under the collapsed path |
| `Paths.CollapseIsSegmentwise` | src/lib/stores.ts:20-31 | collapsing `["a"]` in `[[], ["a"], ["ab"], ["a", "b"]]` leaves `[[], ["ab"]]` |
| `Paths.ExpandThenCollapse` | src/lib/stores.ts:8-33 | expanding any path and then collapsing it leaves every strict ancestor present (the root included when the path is not the root) and nothing under the path; for the root the list becomes empty |

## Left out

- The Svelte store machinery (`writable`, `subscribe`, `set`, notifying subscribers) is not modelled; each `update` is the method's assignment to the field, and no subscriber is notified.
- Reference identity of arrays, on which `_.uniq` relies, is not modelled: paths are values, and since value-equal paths from `slice` are never reference-equal, `_.uniq` removes nothing the model would need to remove. An entry that is the very same array twice in the old list would be merged by `_.uniq` but is kept twice here; the functions in `src/lib/stores.ts` never put one array into the list twice.
- `editModelPath` is only declared in `src/lib/stores.ts` and never written by its two operations; the model holds it as a field that both methods leave unchanged, with no operation of its own.
- `parseJsonString` in `src/lib/util.ts` is a wrapper around the built-in `JSON.parse`, a foreign library; it is not part of this model.
- Path segments are Dafny strings, sequences of Unicode scalar values, while JavaScript strings are UTF-16 code units and may hold lone surrogates (as `JSON.parse` produces from a key like `"\ud800"`). Such segments cannot be represented here; on every segment that can be, the segment comparison `!==` gives the same answer as Dafny's `!=`.
- `gh-pages.js` is deploy tooling (I/O and network); `src/lib/types.ts` holds only the `MonacoEditor` type alias and the `PathValuePair` interface, with no logic; `src/lib/constants.ts` holds only data. None of them is part of this model.
- A boolean expansion map keyed by joined strings, a `"Root"` key codec, an `expandMany` operation with a deferred loading flag, traversal of the JSON value and a reveal operation are not in `src/lib/stores.ts`, so they are not modelled.
