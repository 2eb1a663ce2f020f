# ids — a verified model of the composition-tree core

`ids` turns a CJK character into its composition tree (an Ideographic
Description Sequence, IDS). A character is looked up in a table of
descriptions keyed by character and glyph variant. The chosen description is
parsed into a tree of operators and components. Each immediate argument of
the root's binary or ternary operator that is a bare character is then
expanded the same way, with the variant it asks for preferred, and so on in
each expansion. Characters under a unary operator, or inside a nested
operator argument, are left unexpanded. The tree is printed either as a flat string with a depth
budget or as an indented diagnostic listing.

This project models that core in Dafny. It has these modules:

- `IdsNode` (`ids_node.dfy`): the tree `IDSExpr` / `IDSNode` / `IDS`.
- `Render` (`render.dfy`): `to_string_simp`, `fmt_tree_r` and the `Display`
  of `IDS`. `fmt_tree_r` is a `Formatter` class that appends to its output
  step by step. It is proved equal to the string function `FmtTree`.
- `ParseTree` (`parse_tree.dfy`): `parse_node_fr` over an abstract parse
  tree. The parse tree is a rule tag, the matched text and the inner pairs.
  The module also has a printer back to parse trees, to prove `parse_node_fr`
  loses nothing.
- `IdsIo` (`ids_io.dfy`): `query`, `ids_split_var` and the line-processing
  closure `process_1` of `load`. `process_1` is a `Loader` class over the
  mutable table. It is proved equal to a fold over the lines.
- `Expand` (`expand.dfy`): `extend_var_list`, `extend_node`, `create_node`
  and `create_tree`. `extend_var_list` and `create_tree` are functions.
  `create_node`, `extend_node` and its `check_extend` closure are
  specification functions, each paired with a method that computes it; the
  `extend_node` method overwrites the child slots one after another.
- `Strings` and `Wrappers`: the string helpers (Rust's `split`, `rfind`,
  counting) and `Option` / `Result`.

The description table is an explicit `map<char, map<string, string>>`. The
entry that `HashMap` iteration yields first is a parameter `pick`. All that
is known of it is that it returns an entry of the map. The grammar's parser
is a parameter `parse` that may fail. Every call to the expansion carries a
`fuel` bound: the Rust recursion terminates only on an acyclic table.

## Model

| member | source | states |
|---|---|---|
| `Render.ToStringSimp` | src/lib.rs:46-73 | at level 1 a node with a character renders as exactly that character, whatever lies below it; otherwise a `Null` subtree renders as `""`; the result is never longer than the tree has nodes |
| `Render.SimpOperatorNode` | src/lib.rs:50-70 | a non-collapsing operator node renders as its operator followed by its arguments' renderings in argument order, each at `level - 1` (a level of 1 stays 1, and a level of 0 stays 0); the overlay argument does not appear |
| `Render.SimpWithoutCollapse` | src/lib.rs:46-72 | at level 0, or at a level deeper than the tree, nothing collapses and the result is the operators in pre-order |
| `Render.SimpIgnoresAnnotations` | src/lib.rs:52-70 | the simplified form is the same with all overlay arguments, hints, variants and stroke sequences removed |
| `Render.LabelsShowOnlyPresent` | src/lib.rs:76-106 | the character label is empty exactly when there is no character; a `(v)` variant appears only after a character and only when non-empty; the `Hint:` label is empty exactly when the hint is; a `[...]` overlay appears exactly for a binary operator that has one |
| `Render.NodeLineLayout` | src/lib.rs:75-107 | each node line starts with `4*level` blanks and `* ` and ends with a line break, its only one when no annotation holds a line break |
| `Render.FmtTreeIsPreorderLines` | src/lib.rs:74-127 | the diagnostic form is the node lines of all nodes in pre-order, each at its depth |
| `Render.PreorderShape` | src/lib.rs:109-125 | the pre-order listing has one entry per node, starts with the node at `level`, has all descendants deeper, and has exactly as many entries at `level + 1` as the node has arguments |
| `Render.FmtTreeLineCount` | src/lib.rs:74-127 | without line breaks in the annotations, the diagnostic form has exactly one line per node |
| `Render.Formatter.WriteNodeLine` | src/lib.rs:75-107 | writing the node's line piece by piece appends exactly `NodeLine(n, level)` |
| `Render.Formatter.WriteArgs` | src/lib.rs:109-125 | the arguments are written one after another at the given level |
| `Render.Formatter.FmtTreeR` | src/lib.rs:74-127 | `fmt_tree_r` appends exactly `FmtTree(n, level)` to the output |
| `Render.Formatter.FmtIds` | src/lib.rs:130-137 | `Display` appends the quoted root character (if any), a line break, then the tree from level 0 |
| `ParseTree.Unbracket` | src/lib.rs:157-159 | a bracketed text loses exactly its first and last character |
| `ParseTree.ParseNode` | src/lib.rs:140-233 | an `ideographicA` pair gives a childless node with the first character of its text and the second inner pair's text (or `""`) as its variant; stroke, binary and ternary nodes take the unbracketed hint, or `""` without one; a stroke leaf takes its stroke text; a binary node's overlay argument is the unbracketed text of the operator's inner pair, or none without one; a unary node's hint is `""`; an `expr` pair gives what its inner pair gives |
| `ParseTree.ParseNodeToPair` | src/lib.rs:140-233 | every tree of the shape `parse_node_fr` produces is what it makes of that tree's own parse tree: no character, stroke sequence, hint, overlay argument or variant is lost or altered |
| `IdsIo.FirstPreferred` | src/io.rs:100-104 | the index of the first preferred tag that is a key of the map, with no earlier one a key; none exactly when no preferred tag is a key |
| `IdsIo.Query` | src/io.rs:91-118 | none exactly when the character is absent or has no entry; a single entry is returned whatever the preferences; with several entries the first preferred tag that is a key wins, else the `""` entry, else some entry; every pair returned is an entry of the table |
| `IdsIo.SoftFallbackTagNotPreferred` | src/io.rs:106-115 | with several entries and no preferred tag present, the lookup still succeeds, with a tag that was not asked for |
| `IdsIo.SplitVarWhole` | src/io.rs:25-38 | a description that does not end in `)`, or has no `(`, is one pair `("", s)` |
| `IdsIo.SplitVarEscaped` | src/io.rs:26-27 | so is one whose last `(` follows a `#` |
| `IdsIo.SplitVarTags` | src/io.rs:26-32 | otherwise all pairs carry the text before the last `(`; there is one pair per comma plus one; no tag holds a comma; the tags joined with `,` give back the text inside the parentheses |
| `IdsIo.SplitVarCheckedPanics` | src/io.rs:26-27 | the code as written fails exactly on descriptions ending in `)` whose last `(` is their first character, and elsewhere agrees with `SplitVar` |
| `IdsIo.SplitVarLeadingParen` | src/io.rs:27 | `(a)` makes the checked build fail, where the intended result is the tag `a` with an empty description |
| `IdsIo.ApplyPairsLastWins` | src/io.rs:68-70 | after inserting the pairs in order, a tag holds the description of its last pair; a tag no pair names keeps its old entry or stays absent |
| `IdsIo.ProcessLineSkips` | src/io.rs:47-64 | a comment line, a line with fewer than two tab-separated fields, or a first field that is not exactly one character leaves the table unchanged |
| `IdsIo.ProcessLineRecord` | src/io.rs:51-71 | a record line replaces its character's entry, and only that, by the old (or an empty) entry updated with the pairs of every `;`-separated piece of its second field |
| `IdsIo.ProcessLineExtraFields` | src/io.rs:51-69 | fields after the second change nothing |
| `IdsIo.ProcessLineEffect` | src/io.rs:66-71 | other characters keep their entries; for the line's character the last pair naming a tag wins and tags the line does not name keep their entries |
| `IdsIo.InsertPairs` | src/io.rs:68-70 | the inner insertion loop leaves the character's map as `ApplyPairs` of the pairs: each pair inserted in order |
| `IdsIo.InsertPieces` | src/io.rs:67-71 | the loop over `;`-separated pieces inserts every piece's pairs into the character's map, piece after piece |
| `IdsIo.Loader.ProcessRecord` | src/io.rs:46-71 | one iteration of the line loop, with its early `continue`s, leaves the table as `ProcessLine` says; the character's entry (`or_insert` of an empty map) is updated and stored back |
| `IdsIo.Loader.Process1` | src/io.rs:44-74 | `process_1` leaves the table as the fold of `ProcessLine` over the lines in order |
| `IdsIo.Load` | src/io.rs:76-86 | the files are processed in order into one table starting empty |
| `Expand.Without` | src/lib.rs:237 | filtering out `v` removes every occurrence of `v` and nothing else |
| `Expand.WithoutAppend` | src/lib.rs:237 | the filter distributes over concatenation; with `WithoutSingle` (a one-element list keeps its element unless it is `v`) this pins `Without` down as the filter that keeps the original order |
| `Expand.ExtendVarList` | src/lib.rs:235-239 | `v` comes first and occurs exactly once, the length is one plus the length of `l` minus the number of `v` in it, and every other tag keeps its number of occurrences, even when `v` is `""` |
| `Expand.ExtendVarListPrefersVariant` | src/lib.rs:245 | a child's own variant, when the table has it for that character, is the entry the child's lookup returns |
| `Expand.ExtendVarListAbsentVariant` | src/lib.rs:235-239 | a variant the character does not have leaves the lookup to the incoming list alone |
| `Expand.Create` | src/lib.rs:274-286 | on success the root carries the character and the tag the lookup returned; a failed lookup is `QueryFailed` |
| `Expand.CheckExtend` | src/lib.rs:242-250 | an expanded child keeps its character; a child that is not an atom is returned unchanged |
| `Expand.Extend` | src/lib.rs:241-272 | on success only the immediate child atoms of a binary or ternary node are replaced; the node's own fields, operator and overlay stay |
| `Expand.ExtendChildren` | src/lib.rs:251-271 | a binary or ternary node expands exactly when every child slot does; the new children are the slots' results in order; a failure is the first failing slot's error |
| `Expand.ExtendSlots` | src/lib.rs:242-271 | each replaced child is `create_node` of its character under the parent's incoming list reordered for the child's variant; stroke leaves, unary children and nested operator nodes (with their own atoms) stay as they are |
| `Expand.CreatePropagates` | src/lib.rs:281 | a failure of the expansion below the root is the failure of the whole call, never a partial tree |
| `Expand.CheckExtendKeepsVariant` | src/lib.rs:245 | a child asking for a variant the table has for its character ends up with that variant |
| `Expand.CreateFuel` | src/lib.rs:274-286 | any outcome other than running out of fuel stays the same with more fuel, so the bound only cuts recursion off |
| `Expand.CreateTree` | src/lib.rs:288-292 | `create_tree` succeeds exactly when `create_node` does; its root is `create_node`'s tree, with the character at the root, and its error is `create_node`'s error |
| `Expand.CreateNode` | src/lib.rs:274-286 | the imperative `create_node` (look up, parse, stamp the root, expand) computes `Create` |
| `Expand.CheckExtendNode` | src/lib.rs:242-250 | the `check_extend` closure computes `CheckExtend` |
| `Expand.ExtendNode` | src/lib.rs:241-272 | overwriting the slots one after another computes `Extend`; on a failure at slot `k`, whose `check_extend` gave that error, the slots before `k` hold their expansions and the slots from `k` on are untouched, and the node still differs only in its child atoms |

## Left out

- File and global-state plumbing is not modelled: the file list and its setters (src/io.rs:7-22), `fs::File::open` and the error it returns from `load`, the `Lazy` table, and the line reader with its skipped read errors. A file is a sequence of lines, already without line terminators.
- The `ids.pest` grammar and `IDSParser::parse` are not part of this model. The parser is the parameter `Env.parse`. It is assumed to yield only parse trees of the shape `parse_node_fr` accepts (`WellFormed`); on any other shape the Rust code panics. Only the first pair that `parse` returns is used, as in the source.
- The `eprintln!` diagnostics (soft fallback, malformed descriptions, malformed records, the load count) are output only and are left out.
- IdsIo.Query: with several entries, no preferred tag and no `""` entry, it states only that some entry of the map is returned, because `HashMap` iteration order is unspecified.
- Expand.Create: the nontermination of the Rust recursion on a cyclic table (a stack overflow) becomes the error `OutOfFuel`, since every call carries a fuel bound.
- Expand.Extend: on a failure the function returns only the error. The slots that `extend_node` had already overwritten are stated by the method `ExtendNode` only.
- Error values are the datatype `Expand.Error` rather than boxed errors with message text. The pest error's message is kept as a string.
- The tree is a value. `Box` ownership, in-place slot overwrites and aliasing are not modelled; no node is shared in the source either.
- `fmt::Formatter` write failures are not modelled: every write succeeds.
- Strings are sequences of characters, not UTF-8 bytes. Testing the byte before `(` for `#` is the same as testing the previous character. `level * 4` and other `usize` arithmetic are unbounded except at src/io.rs:27 (see Findings).
- The `all_tree` test and the unused imports are not modelled.

## Findings

| source | as written | input that shows it | evidently intended | confidence | as-written member | corrected member |
|---|---|---|---|---|---|---|
| src/io.rs:27 | when the last `(` is at index 0, `p - 1` underflows `usize`: a debug build panics, a release build wraps and `get` returns `None` | `"(a)"` | a `(` with nothing before it is not escaped, so the text splits into the tag `a` with an empty description | not executed; medium — the release build already behaves as intended | `IdsIo.SplitVarChecked` (shown by `IdsIo.SplitVarLeadingParen`, characterised by `IdsIo.SplitVarCheckedPanics`) | `IdsIo.SplitVar` (its splitting proved by `IdsIo.SplitVarTags`) |
