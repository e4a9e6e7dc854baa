# GroupPath: label-delimited access to groups, in Dafny

AiiDA stores groups under flat labels such as `a/c/e/g`. `GroupPath`
(`aiida/tools/groups/grouppaths.py`) presents those labels as a virtual
directory tree, split on a one-character delimiter (default `/`). A node
of that tree is either *concrete*, meaning there is a stored group with
exactly its label, or *virtual*, meaning it is only a prefix of other
labels.

This project models four parts of `GroupPath` and proves properties of
each:

- path validation (`_validate_path`);
- the constructor;
- descent by `/` and `[]`;
- the derivation of a node's direct children from the stored labels,
  and the operations built on it (`__iter__`, `__len__`,
  `__contains__` and the pre-order `walk`).

It also models the store operations `get_group`, `is_virtual`,
`has_group`, `get_or_create_group` and `delete_group`.

Files:

- `wrappers.dfy` (module `Wrappers`): `Option` and `Result`.
- `segments.dfy` (module `Segments`): Python's `str.split(d)` and
  `d.join(xs)` for a one-character delimiter, and their inverse laws.
- `grouppath.dfy` (module `GroupPaths`):
  - the `InvalidPath` error;
  - `_validate_path`;
  - the `GroupPath` value (path, segments, delimiter, parent), which also
    covers the `path`, `delimiter` and `parent` properties;
  - the constructor and `root`;
  - the descent of `__truediv__`, both as a function and as the loop the
    source runs.
- `listing.dfy` (module `Listing`): as functions of the label listing:
  - what `children` computes, both as written and corrected (see
    "Findings");
  - what `walk` computes.

  These come with the lemmas: children's sound and complete origin,
  shape, distinctness and order, and for `walk`: termination, the
  downward shape, distinctness, completeness and pre-order.
- `store.dfy` (module `Store`): the class `GroupStore`, whose field
  `labels` is the ordered, duplicate-free listing of stored labels that
  stands in for the database. Its methods:
  - the store operations;
  - the loop of `children`, which accumulates `yielded` and the
    children;
  - the counting and searching loops of `__len__` and `__contains__`;
  - the recursive `walk`.

  Each traversal method (`Children`, `Iter`, `Len`, `Contains`, `Walk`)
  is proved equal to the specification function of `listing.dfy`.
- `examples.dfy` (module `Examples`): the labels of the repository's
  basic test (`a`, `a/b`, `a/c/d`, `a/c/e/g`, `a/f`). It proves what
  `children`, `len`, `in`, `walk` and `is_virtual` give over them. The
  facts are proved for any seven segment names that are non-empty, free
  of `/`, and different wherever the test's names are. `TestListing` and
  `TestPaths` then instantiate them with the test's own names.

Faithful to the code, including where it is odd:

- The constructor computes the segments from the *raw* argument's
  truthiness (line 41). So `GroupPath("/")` has path `""` but segments
  `[""]`, while `GroupPath("")` has segments `[]` (`GroupPaths.RootNode`).
  `GroupPaths.Canonical` names the normal shape, which every node other
  than one built from the bare delimiter has.
- `p / s` where `s` is the bare delimiter succeeds only on a node with
  path `""`: the root, or a node such as `root / ""`. It then yields a
  new node with path `""` whose parent is `p`
  (`GroupPaths.SlashToRootPath`). On any node with a non-empty path the
  constructor refuses `p.path + "/"`.
- A truncation that fails validation is still recorded in `yielded`. It
  is skipped without a child, and the scan continues
  (`Listing.ChildrenSoundComplete`).

The repository's test file exercises a later version of the API
(`type_string`, `__eq__`, sorting of nodes, `GroupAttr`). The model
follows `grouppaths.py`:

- The code has no type filter, no `__eq__` and no ordering.
- A node built from `"/"` has the segment `""`.
- `walk` is not guaranteed to terminate (see "Findings").

## Model

| member | source | states |
|---|---|---|
| Segments.Split | aiida/tools/groups/grouppaths.py:41 | `str.split` on one character: at least one segment, none containing the delimiter |
| Segments.Join | aiida/tools/groups/grouppaths.py:143 | `d.join(xs)`; `JoinSplit` and `SplitJoin` state that it and `Split` undo each other |
| Segments.JoinSplit | aiida/tools/groups/grouppaths.py:143 | joining the segments of a split gives back the string |
| Segments.SplitNoDelimiter | aiida/tools/groups/grouppaths.py:89 | a string without the delimiter is one segment |
| Segments.SplitConcat | aiida/tools/groups/grouppaths.py:91 | splitting `a + d + b` is the split of `a` followed by the split of `b` |
| Segments.SplitJoin | aiida/tools/groups/grouppaths.py:143 | splitting a join of delimiter-free segments gives back the segments |
| Segments.SplitJoinPrefix | aiida/tools/groups/grouppaths.py:140-143 | a truncated label (the first `k` segments joined) splits back into exactly those `k` segments |
| GroupPaths.Validate | aiida/tools/groups/grouppaths.py:49-54 | `_validate_path`: the bare delimiter gives `""`; a doubled, leading or trailing delimiter is refused with `InvalidPath`; anything else, `""` included, is returned unchanged. `EmptySegment`, `ValidIffSegmentsNonEmpty` and `ValidateExamples` state its properties |
| GroupPaths.EmptySegment | aiida/tools/groups/grouppaths.py:52 | a split has an empty segment exactly when the string is empty, starts or ends with the delimiter, or doubles it; the segments after the first have one exactly when it ends with the delimiter or doubles it |
| GroupPaths.ValidIffSegmentsNonEmpty | aiida/tools/groups/grouppaths.py:49-54 | a non-empty path passes `_validate_path` unchanged exactly when all its segments are non-empty |
| GroupPaths.ValidateExamples | aiida/backends/tests/tools/groups/test_grouppath.py:30-32 | `/a`, `a/`, `/a/` and `a//b` are refused; `/` validates to `""`; `""` and `a/b` pass unchanged |
| GroupPaths.New | aiida/tools/groups/grouppaths.py:36-44 | construction succeeds exactly when validation does; otherwise it fails with `InvalidPath` of the argument; it keeps the parent and delimiter; the path is the argument unless the argument is the bare delimiter |
| GroupPaths.NewShape | aiida/tools/groups/grouppaths.py:40-41 | a constructed node's path is the join of its segments; built from anything but the bare delimiter it is canonical; a non-empty path has the argument's split, with no empty segment |
| GroupPaths.RootNode | aiida/tools/groups/grouppaths.py:36-44 | `GroupPath()` is the root with path `""`, segments `[]` and no parent; `GroupPath("/")` has path `""` but segments `[""]` |
| GroupPaths.Root | aiida/tools/groups/grouppaths.py:76-81 | `root` has no parent and is reached from the node by following `parent` |
| GroupPaths.Descend | aiida/tools/groups/grouppaths.py:88-95 | the chain of constructor calls of `__truediv__`, one per key, each node the parent of the next, stopped by the first refused key; `DescendSnoc`, `DescendFails`, `DescendChain` and `ChainRoot` state its properties |
| GroupPaths.Slash | aiida/tools/groups/grouppaths.py:83-95 | `p / s`: validate `s`, then descend by its segments; `SlashSpec`, `SlashToRootPath` and `SlashNonEmpty` state its properties, and `Div` is proved equal to it |
| GroupPaths.Div | aiida/tools/groups/grouppaths.py:83-95 | the loop of `__truediv__` returns exactly the descent `Slash`, including the error of the first refused step |
| GroupPaths.Index | aiida/tools/groups/grouppaths.py:97-99 | `__getitem__` is the same descent as `/` |
| GroupPaths.DescendFails | aiida/tools/groups/grouppaths.py:89-94 | once one step of the descent raises, the later keys do not change the result |
| GroupPaths.DescendSnoc | aiida/tools/groups/grouppaths.py:89-94 | descending over one more key takes one constructor step from the node the shorter descent reached |
| GroupPaths.ExtendStep | aiida/tools/groups/grouppaths.py:90-94 | from a canonical node, a non-empty key without the delimiter gives a canonical child: its path is the node's path extended by the key, its segments are the node's plus the key, and its parent is the node |
| GroupPaths.DescendChain | aiida/tools/groups/grouppaths.py:88-95 | descending by valid keys succeeds; it gives a canonical node whose segments are the start node's followed by the keys, with one parent step per key back to the start node |
| GroupPaths.ChainStep | aiida/tools/groups/grouppaths.py:89-94 | one more loop iteration keeps that chain shape |
| GroupPaths.ChainRoot | aiida/tools/groups/grouppaths.py:76-81 | the result of a descent reaches the receiver by parent steps and has the receiver's `root` |
| GroupPaths.CanonicalPath | aiida/tools/groups/grouppaths.py:40-41 | a canonical node's path is the join of its segments |
| GroupPaths.JoinConcat | aiida/tools/groups/grouppaths.py:91 | joining two non-empty segment lists puts one delimiter between their joins |
| GroupPaths.SlashSpec | aiida/tools/groups/grouppaths.py:83-95 | on a canonical node, `p / s` fails exactly when `s` is refused, or when `s` validates to `""` below the root; on success the path is `p.path + d + s` (just `s` at the root), the result is canonical, and for non-empty `s` it extends `p` by the segments of `s`, one parent per segment, with the same `root` |
| GroupPaths.SlashToRootPath | aiida/tools/groups/grouppaths.py:87-95 | on a canonical node, `p / "/"` succeeds exactly when `p` has path `""` (the root, or a node such as `root / ""`), giving a node with path `""`, no segments and `p` as its parent |
| GroupPaths.SlashNonEmpty | aiida/tools/groups/grouppaths.py:88-95 | `p / s` for `s` validating to a non-empty path: one node per segment; the result has the joined path and `p`'s root |
| GroupPaths.ChainPath | aiida/tools/groups/grouppaths.py:91 | a canonical node whose segments extend `p`'s by those of `v` has the path `p.path + d + v` |
| GroupPaths.SlashFromRoot | aiida/backends/tests/tools/groups/test_grouppath.py:39-41 | from the root, any valid non-empty path gives a node with exactly that path |
| GroupPaths.SlashBelow | aiida/tools/groups/grouppaths.py:91 | below a non-root node, `p / s` has path `p.path + d + s` |
| GroupPaths.SlashExamples | aiida/backends/tests/tools/groups/test_grouppath.py:39-42 | `root / "a"` has path `a`; `root / "a/b"` and `root / "a" / "b"` have path `a/b` |
| Listing.Truncation | aiida/tools/groups/grouppaths.py:140-144 | the candidate a label gives a node: its first `|segs| + 1` segments rejoined, when it has more segments than the node and starts with the node's; `TruncationShape` and `CandidatesMember` state its properties |
| Listing.TruncationShape | aiida/tools/groups/grouppaths.py:140-144 | the truncation of a label splits into its first `|segs| + 1` segments, which start with the node's segments |
| Listing.CandidatesMember | aiida/tools/groups/grouppaths.py:139-144 | a string is a candidate exactly when it is the truncation of some listed label |
| Listing.Dedup | aiida/tools/groups/grouppaths.py:138-145 | `yielded` holds the same strings as the candidates, none twice |
| Listing.YieldedSnoc | aiida/tools/groups/grouppaths.py:144-145 | the next label's truncation is appended to `yielded` exactly when it is new |
| Listing.YieldedFold | aiida/tools/groups/grouppaths.py:139-145 | scanning the rest of the listing continues from what the first part yielded |
| Listing.YieldedConstant | aiida/tools/groups/grouppaths.py:144-145 | labels that all truncate to `c` yield just `[c]` |
| Listing.ChildrenOf | aiida/tools/groups/grouppaths.py:133-150 | `children` with the correction of "Findings": the nodes built from `yielded` in order, skipping candidates the constructor refuses or that give the root path; `ChildrenSoundComplete`, `ChildrenDistinct`, `ChildrenOrder` and `ChildShape` state its properties, and `GroupStore.Children` is proved equal to it |
| Listing.ChildrenAsWritten | aiida/tools/groups/grouppaths.py:133-150 | `children` exactly as written, skipping only refused candidates; `AsWrittenAgrees` and `AsWrittenAgreesAtRoot` state where it equals `ChildrenOf`, and `RootRevisitsItselfAsWritten` and `DelimiterNodeRevisitsItselfAsWritten` where it does not |
| Listing.SpawnCorrected | aiida/tools/groups/grouppaths.py:146-147 | a kept child has the candidate as its non-empty, valid path, the candidate's split as its segments, and the node as its parent |
| Listing.EmitMember | aiida/tools/groups/grouppaths.py:144-150 | a node is emitted exactly when some candidate spawns it |
| Listing.EmitDistinct | aiida/tools/groups/grouppaths.py:144-147 | distinct candidates give children with distinct paths, each one a candidate |
| Listing.ChildOrigin | aiida/tools/groups/grouppaths.py:139-147 | every child comes from a listed label whose truncation is the child's path; it has one segment more than the node, its prefix is the node's segments, its parent is the node, and it is canonical |
| Listing.ChildShape | aiida/tools/groups/grouppaths.py:140-147 | every child: parent is the node, same delimiter, `|segs| + 1` segments starting with the node's, non-empty path, no empty segment, canonical |
| Listing.ChildrenSoundComplete | aiida/tools/groups/grouppaths.py:139-150 | every child comes from a listed label. A listed label strictly below the node contributes its truncation as a child exactly when the truncation is a valid, non-empty path |
| Listing.ChildrenDistinct | aiida/tools/groups/grouppaths.py:144-145 | no child path is yielded twice |
| Listing.ChildrenOrder | aiida/tools/groups/grouppaths.py:139-147 | children come out in the order of their paths' first occurrence among the truncations of the listing |
| Listing.EmitDedupOrder | aiida/tools/groups/grouppaths.py:139-147 | the same first-occurrence order, for any list of candidates |
| Listing.OrderAppend | aiida/tools/groups/grouppaths.py:145-147 | a child yielded for a new candidate comes after all earlier children |
| Listing.MaxSegs | aiida/tools/groups/grouppaths.py:139-141 | no listed label has more segments than this bound |
| Listing.ChildrenBounded | aiida/tools/groups/grouppaths.py:140-143 | no child has more segments than the longest label |
| Listing.ChildrenFit | aiida/tools/groups/grouppaths.py:167-171 | children are exactly one level deeper and within the longest label, which bounds the recursion of `walk` |
| Listing.WalkOf | aiida/tools/groups/grouppaths.py:167-172 | `walk`: the walk of the node's children, terminating on the measure of how many levels the longest label leaves; `WalkBelow`, `WalkComplete`, `WalkDistinct` and `WalkPathsDistinct` state its properties, and `GroupStore.Walk` is proved equal to it |
| Listing.WalkList | aiida/tools/groups/grouppaths.py:169-172 | the walks of siblings in order, each sibling followed at once by its own walk (pre-order); `WalkListMember`, `WalkListDistinct` and `WalkListPrefixes` state its properties |
| Listing.WalkListMember | aiida/tools/groups/grouppaths.py:167-172 | a node is walked exactly when it is a child or is in the walk of a child |
| Listing.WalkStep | aiida/tools/groups/grouppaths.py:169-172 | each walked node is a child, or lies in a child's walk |
| Listing.WalkBelow | aiida/tools/groups/grouppaths.py:167-172 | every walked node lies strictly below the node, is canonical, and has segments that are a prefix of some listed label's |
| Listing.WalkDistinct | aiida/tools/groups/grouppaths.py:167-172 | `walk` yields no segment list twice |
| Listing.WalkListDistinct | aiida/tools/groups/grouppaths.py:169-172 | the walks of distinct siblings, each after its sibling, repeat nothing, and everything in them lies below one of the siblings |
| Listing.SiblingWalksApart | aiida/tools/groups/grouppaths.py:169-172 | a child and its walk share no node with the walks of its later siblings |
| Listing.WalkListPrefixes | aiida/tools/groups/grouppaths.py:169-172 | every node of a sibling walk starts with one sibling's segments |
| Listing.WalkPathsDistinct | aiida/tools/groups/grouppaths.py:167-172 | `walk` yields no path twice |
| Listing.ChildFor | aiida/tools/groups/grouppaths.py:139-147 | a listed label below the node with no empty segment gives the node the child made of its first `|segs| + 1` segments |
| Listing.WalkComplete | aiida/tools/groups/grouppaths.py:167-172 | for a listed label with no empty segment below the node, every longer prefix of it is walked |
| Listing.RootRevisitsItselfAsWritten | aiida/tools/groups/grouppaths.py:140-147 | as written, the label `/x` makes the root's only child a node with path `""` and no segments, whose only child is again such a node |
| Listing.RootSkipsEmptyCandidate | aiida/tools/groups/grouppaths.py:140-147 | with the correction the same listing gives the root no children |
| Listing.SpawnAgree | aiida/tools/groups/grouppaths.py:146-147 | on a candidate whose first segment is non-empty the as-written and corrected rules build the same child or none |
| Listing.EmitAgree | aiida/tools/groups/grouppaths.py:144-147 | candidates on which both rules agree give the same children |
| Listing.AgreeWhenFirstSegments | aiida/tools/groups/grouppaths.py:139-147 | when every label reaching below the node has a non-empty first segment, `children` as written equals the corrected `children` |
| Listing.AsWrittenAgrees | aiida/tools/groups/grouppaths.py:133-150 | below any canonical node other than the root the correction changes nothing: `children` as written equals the corrected `children` for every listing |
| Listing.AsWrittenAgreesAtRoot | aiida/tools/groups/grouppaths.py:133-150 | at the root the correction changes nothing when no label is empty or starts with the delimiter |
| Listing.DelimiterNodeRevisitsItselfAsWritten | aiida/tools/groups/grouppaths.py:140-147 | as written, for any delimiter `d`, the node `GroupPath(d)` (path `""`, segments `[""]`) with the stored label `d` has as its only child the same node with itself as parent |
| Listing.DelimiterTruncation | aiida/tools/groups/grouppaths.py:140-143 | below the node `GroupPath(d)` the label `d` truncates to `d` again |
| Listing.DelimiterNodeSkipsEmptyCandidate | aiida/tools/groups/grouppaths.py:140-147 | with the correction the same node and listing have no children |
| Store.Without | aiida/tools/groups/grouppaths.py:123-126 | removing a label keeps exactly the other labels; it changes nothing when the label is absent; `WithoutAt` states the order |
| Store.WithoutAt | aiida/tools/groups/grouppaths.py:123-126 | in a listing without repetitions, removing the label at position `i` drops exactly that position and keeps the rest in order |
| Store.WithoutDistinct | aiida/tools/groups/grouppaths.py:123-126 | deleting a label keeps the remaining labels distinct |
| Store.WalkListAt | aiida/tools/groups/grouppaths.py:169-172 | the walk from sibling `i` on is sibling `i`, then its walk, then the walk of the rest |
| Store.GroupStore.Valid | aiida/tools/groups/grouppaths.py:104 | the store's invariant: no label is stored twice, as the lookup by label presumes |
| Store.GroupStore.constructor | aiida/tools/groups/grouppaths.py:136-139 | a store over a duplicate-free listing of labels, in the order the query returns them; it satisfies `Valid` |
| Store.GroupStore.GetGroup | aiida/tools/groups/grouppaths.py:101-106 | a group is found exactly when some stored label equals the path, and it carries that label |
| Store.GroupStore.IsVirtual | aiida/tools/groups/grouppaths.py:108-112 | a node is virtual exactly when no stored label equals its path |
| Store.GroupStore.HasGroup | aiida/tools/groups/grouppaths.py:114-117 | `has_group` is exactly the negation of `is_virtual`, that is, the path is stored |
| Store.GroupStore.GetOrCreateGroup | aiida/tools/groups/grouppaths.py:119-121 | returns the group with the node's label; `created` holds exactly when the label was new; an existing label leaves the store unchanged and a new one is appended; labels stay distinct |
| Store.GroupStore.DeleteGroup | aiida/tools/groups/grouppaths.py:123-126 | removes exactly the node's label if present, keeping the other labels in order, and is a no-op otherwise; all other labels are untouched, labels stay distinct, and the node is virtual afterwards |
| Store.GroupStore.Children | aiida/tools/groups/grouppaths.py:133-150 | the loop over the listing, which accumulates `yielded`, returns exactly `ChildrenOf` (corrected rule) |
| Store.GroupStore.Iter | aiida/tools/groups/grouppaths.py:152-154 | iterating a node gives its children |
| Store.GroupStore.Len | aiida/tools/groups/grouppaths.py:156-158 | the counting loop returns the number of children |
| Store.GroupStore.Contains | aiida/tools/groups/grouppaths.py:160-165 | `key in node` holds exactly when some child's last segment equals `key` |
| Store.GroupStore.Walk | aiida/tools/groups/grouppaths.py:167-172 | the recursive walk returns exactly `WalkOf`: each child followed at once by its own walk; it terminates because depth grows by one per level, bounded by the longest label |
| Examples.TestListing | aiida/backends/tests/tools/groups/test_grouppath.py:28-29 | the test's names meet the assumptions and give the labels `a`, `a/b`, `a/c/d`, `a/c/e/g`, `a/f` |
| Examples.RootChildren | aiida/backends/tests/tools/groups/test_grouppath.py:43-44 | over the test listing the root has the single child `a`, so `len(root) == 1`; `key in root` holds exactly for `a` |
| Examples.ChildrenOfA | aiida/backends/tests/tools/groups/test_grouppath.py:54-55 | `a` has the children `a/b`, `a/c`, `a/f`, in that order |
| Examples.ChildrenOfAC | aiida/backends/tests/tools/groups/test_grouppath.py:106-108 | `a/c` has the children `a/c/d`, `a/c/e` |
| Examples.ChildrenOfACE | aiida/backends/tests/tools/groups/test_grouppath.py:117 | `a/c/e` has the single child `a/c/e/g` |
| Examples.WalkAC | aiida/backends/tests/tools/groups/test_grouppath.py:115-117 | the walk from `a/c` is `a/c/d`, `a/c/e`, `a/c/e/g` |
| Examples.WalkFromRoot | aiida/backends/tests/tools/groups/test_grouppath.py:56 | the walk from the root is exactly `a`, `a/b`, `a/c`, `a/c/d`, `a/c/e`, `a/c/e/g`, `a/f` |
| Examples.TestPaths | aiida/backends/tests/tools/groups/test_grouppath.py:56 | with the test's names those nodes have the paths the test lists |
| Examples.VirtualLevels | aiida/backends/tests/tools/groups/test_grouppath.py:51-55 | over the test listing, `a`, `a/b` and `a/f` have groups, while `a/c` and the root are virtual |

## Left out

- The ORM (`orm.QueryBuilder`, `orm.Group.objects`, `NotExistent`) is a
  database layer whose code is not part of this model. It is replaced by
  `GroupStore.labels`: a duplicate-free sequence of labels, in the order
  the query returns them.
- Store.GroupStore.GetOrCreateGroup: puts a newly created label at the
  end of `labels`. This assumes the query lists groups in creation
  order. The source makes no promise about that order.
- `get_or_create_group`'s keyword arguments go to the ORM and are not
  modelled. Groups are known by label only (`Store.Group`).
- `get_nodes` is not modelled, because `group.nodes` is an opaque ORM
  collection.
- `warnings.warn` for an invalid truncation is modelled only as "skip
  and continue".
- Generator laziness is not modelled. `children` and `walk` return
  finished sequences.
- `__repr__` is left out because it prints `id()`.
- The `TypeError` checks on a non-string path and a non-`GroupPath`
  parent are left out, because Dafny's types rule those inputs out.
- The delimiter is a single character. The source accepts any string,
  but every use in the repository is `/`, and multi-character splitting
  is not modelled.
- Features that the test file exercises but `grouppaths.py` does not
  implement are left out:
  - `type_string` filtering;
  - `GroupAttr` and `browse`;
  - `__eq__` and sorting of nodes;
  - the `group` property;
  - the `verdi group path ls` table output.

  The children of `a` come out already in sorted order, so the test's
  `sorted(child)` agrees with `Examples.ChildrenOfA`.
- GroupPaths.SlashSpec: requires a canonical receiver, so it says nothing
  about `/` applied to a node built from the bare delimiter (path `""`,
  segments `[""]`). `GroupPaths.Div` still models that case exactly.
- Store.GroupStore.Contains: it has the guard `|k.segs| > 0` (in
  `Store.Named`), which the source lacks. The source's `_path_list[-1]`
  would raise `IndexError` on a child with no segments. Under the
  corrected `children` no such child exists (`Listing.ChildShape`), so
  the guard never decides anything.
- Store.GroupStore.Children, Walk, Len, Contains: these follow the
  corrected rule of "Findings". The as-written rule is modelled by
  `Listing.ChildrenAsWritten`, and there it makes the walk recurse
  without bound, so only the corrected walk is a method. The two rules
  differ only at a node with path `""`:
  - below every other canonical node they agree for every listing
    (`Listing.AsWrittenAgrees`);
  - at the root they agree unless some label is empty or starts with the
    delimiter (`Listing.AsWrittenAgreesAtRoot`).
- Label uniqueness is kept as the store's invariant `GroupStore.Valid`
  (set up by the constructor, kept by `GetOrCreateGroup` and
  `DeleteGroup`). The lookups do not require it, because a lookup by
  label in the model cannot find two groups. The ORM's error for a
  duplicated label is not modelled.
- The examples are proved for any names meeting `Examples.Good`.
  `Examples.TestListing` and `Examples.TestPaths` connect those facts to
  the test's literal strings.

## Findings

| source | as written | input that shows it | evidently intended | confidence | as-written member | corrected member |
|---|---|---|---|---|---|---|
| aiida/tools/groups/grouppaths.py:140-147 | At the root, a stored label that starts with the delimiter (or is empty) truncates to `""`. That passes `_validate_path`, so `children` yields a node with path `""` and no segments: the root again, as its own child. `walk` then recurses without bound (CPython raises `RecursionError`), and `__contains__` indexes `[-1]` of an empty segment list (`IndexError`). | the store holds only the label `/x`; call `GroupPath().walk()` | skip a candidate that gives the root path, as an invalid one is skipped, so that every child is one segment deeper (`Listing.ChildShape`) and `walk` terminates (`Store.GroupStore.Walk`) | not executed | Listing.RootRevisitsItselfAsWritten | Listing.RootSkipsEmptyCandidate |
| aiida/tools/groups/grouppaths.py:140-147 | The node `GroupPath("/")` has path `""` and segments `[""]`. A stored label `/` (or `//x`) truncates below it to `/`. That validates to `""`, and because the raw argument is non-empty, line 41 gives the child the segments `[""]`: the same node again, with itself as parent. `walk` from it recurses without bound (CPython raises `RecursionError`). | the store holds only the label `/`; call `GroupPath("/").walk()` | skip a candidate that gives the root path, as for the root | not executed | Listing.DelimiterNodeRevisitsItselfAsWritten | Listing.DelimiterNodeSkipsEmptyCandidate |
