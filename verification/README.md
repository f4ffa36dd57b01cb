# hq traversal engines in Dafny

`hq` is a command-line tool that queries and edits HCL documents with
jq-like filters such as `.module{"cool-module"}.version`. A filter is parsed
into a list of fields. Each field has a name and an optional list of labels.
Four engines then walk an HCL tree with that list:

- **query** collects every matching attribute value and block. It works
  breadth-first over a list of results.
- **lookup** is an older first-match variant that yields at most one result.
- **write** replaces terminal attribute values and appends `name = value`
  wherever the field index is terminal.
- **delete** removes terminal attributes, blocks and object entries.

This project models these engines over one abstract HCL tree:

- a body is a sequence of structures;
- a structure is an attribute (key, value, decor) or a block (identifier,
  labels, body);
- an expression is an opaque scalar or an object whose entries are keyed by
  an identifier, a string literal or some other expression;
- decor is an opaque value carried by each attribute.

The project also models the parts around the engines:

- the field constructors;
- the fold that turns the filter parser's token stream into fields;
- the `<FILTER>=<VALUE>` split of the `write` sub-command.

Each engine is written the way the source computes it.

**write and delete.** The source mutates a body in place and keeps a field
index. It first collects matching keys and identifiers, then loops over
them. The model does the same with explicit folds over those collected
sequences. Each fold is then proved equal to an independent, item-by-item
reference definition (`Editor.WrittenBody`, `Deleter.PrunedBody`,
`Deleter.PrunedExpr`). Idempotence is proved on the reference definitions
and carried back.

**Panics.** Two kinds of panic can happen:

- `Identifier::new(..).unwrap()` in query and lookup;
- the identifier check of `Ident::new` in write.

Both appear as an explicit `Panics` outcome (`Wrappers.Run`), not as
preconditions. The only preconditions left are the ones the source marks
unreachable: an empty field list for query and lookup.

**Library calls.** The calls into the HCL libraries get these contracts:

- `Hcl.RemoveAttribute` removes the first attribute with the key;
- `Hcl.RemoveBlocks` removes every block with the identifier;
- `Hcl.Insert` appends, unless an attribute with the key already exists;
- `Hcl.ObjectGet` and `Hcl.RemoveEntry` act on the first entry with the key;
- `get_blocks_mut` yields every block with the identifier, in order
  (`Editor.WriteBlocksNamed`, `Deleter.DeleteBlocksNamed`);
- `get_attribute_mut` yields the first attribute with the key.

Module layout:

| file | module | models |
|---|---|---|
| wrappers.dfy | Wrappers | `Option`, `Result`, and `Run` (returns or panics) |
| seqs.dfy | Seqs | occurrence counting and order-preserving subsequences |
| hcl.dfy | Hcl | the tree, identifiers, and the library operations the engines call |
| filter_parser.dfy | FilterParser | `src/filter/parser.rs` |
| matching.dfy | Matching | the name/label test shared by query, write and delete |
| query.dfy | Query | `src/query.rs` |
| lookup.dfy | Lookup | `src/lookup.rs` |
| write.dfy, write_examples.dfy | Editor, WriteExamples | `src/write.rs` and its tests |
| delete.dfy, delete_examples.dfy | Deleter, DeleteExamples | `src/delete.rs` and its tests |
| write_command.dfy | WriteCommand | the expression split in `src/bin/hq.rs` |

## Model

| member | source | states |
|---|---|---|
| FilterParser.NewField | src/filter/parser.rs:17-22 | `Field::new` gives the name with no labels |
| FilterParser.LabeledField | src/filter/parser.rs:24-29 | `Field::labeled` keeps the name and the labels, in the given order and count |
| FilterParser.ParseFilter | src/filter/parser.rs:32-58 | a grammar error is passed through unchanged; otherwise the result is at most one field per pair, and every field has a non-empty name |
| FilterParser.FieldsOfPairs | src/filter/parser.rs:35-56 | the outer fold never yields more fields than pairs, and never a field with an empty name |
| FilterParser.FoldPairReads | src/filter/parser.rs:40-52 | the fold over one pair's tokens yields the text of the LAST name token (a later name overwrites an earlier one) and every label token's text, appended in order |
| FilterParser.PairFieldReads | src/filter/parser.rs:36-55 | a pair yields no field exactly when it has no non-empty last name; otherwise it yields the field (last name, labels in order) |
| FilterParser.LastNameCons | src/filter/parser.rs:42-46 | a pair has a name token iff its first token is one or the rest has one; the last name is the rest's last name when the rest has a name |
| FilterParser.OtherTokensIgnored | src/filter/parser.rs:50 | dropping every token of another rule leaves the pair's field unchanged |
| FilterParser.FieldsOfPairsAppend | src/filter/parser.rs:35-56 | fields follow pair order: the fold over two pair streams is the concatenation of the folds |
| FilterParser.FieldsOfOnePair | src/filter/parser.rs:53-55 | one pair yields exactly one field when its last name is non-empty, and none when it is empty |
| Matching.LabelLoopCount | src/query.rs:82-88 | the nested filter-label × block-label loop pushes the block once per equal label pair, and nothing else |
| Matching.LabelPairCountPositive | src/query.rs:82-88 | the number of equal label pairs is positive exactly when the two label lists share a label |
| Matching.BlockPushesCount | src/query.rs:76-88 | a block is pushed `BlockHits` times; it is pushed at all iff its identifier equals the name and, for a labeled field, it shares a label |
| Matching.MatchingAttrKeys | src/write.rs:56-63 | the collected keys all equal the field name, one per attribute with that key; the list is non-empty iff the body has such an attribute |
| Matching.MatchingBlockIdents | src/write.rs:65-79 | the collected identifiers all equal the field name; the list is non-empty iff some block passes the name/label test |
| Matching.SameShapesSameGate | src/delete.rs:57-71 | the block test depends only on identifiers and labels, so bodies with the same shapes pass the same gate |
| Query.AttrQueryInDocumentOrder | src/query.rs:63-71 | the attribute values are collected in document order: a concatenation of bodies gives the concatenation of results, and one attribute gives its value iff its key matches |
| Query.BlockQueryInDocumentOrder | src/query.rs:73-91 | blocks are collected in document order; one block is emitted `BlockHits` times and as itself |
| Query.BlockQueryMultiplicity | src/query.rs:73-91 | each block occurs in the result as often as it occurs in the body times its number of hits |
| Query.UnlabeledBlockQuery | src/query.rs:79-81 | for an unlabeled field, each block with the identifier appears once per occurrence, and no other block appears |
| Query.LabeledBlockQueryDrops | src/query.rs:82-88 | for a labeled field, a block that shares no label is never emitted |
| Query.LabeledBlockQueryDuplicates | src/query.rs:82-88 | a repeated filter label emits the same block twice |
| Query.BlockMatchesSelect | src/query.rs:73-91 | every block result is a block of the body that passes the name/label test |
| Query.AttrMatchesAreExprs | src/query.rs:63-71 | the attribute query yields only expression results |
| Query.AttributesBeforeBlocks | src/query.rs:54-61 | `body_query` lists all attribute values first, then only blocks that pass the test; the two never interleave |
| Query.ExprStep | src/query.rs:97-110 | a scalar yields nothing; an object yields at most two values, the identifier-keyed entry before the string-keyed one, and nothing exactly when no entry is keyed by the name; an object panics when the name is not an identifier |
| Query.ResultQueryAppend | src/query.rs:93-118 | results are processed in input order: a concatenated input gives the concatenated outputs, and a panic on either part is a panic |
| Query.ResultQueryOfBlock | src/query.rs:111-114 | a block result continues with `body_query` on its body |
| Query.FanOutOverBlocks | src/query.rs:111-117 | N block results fan out into the concatenation of the N body queries |
| Query.ResultQueryPanics | src/query.rs:98-100 | a step panics exactly when the name is not an identifier and some current result is an object expression |
| Query.ResultQueryBlocksSelect | src/query.rs:93-118 | every block a step yields passes that step's name/label test |
| Query.QuerySingleField | src/query.rs:39-42 | the first field is evaluated against the root body |
| Query.QueryAppendField | src/query.rs:44-51 | each further field is applied to every result so far |
| Query.QueryReturns | src/query.rs:33-52 | when every field after the first is an identifier, the query never panics |
| Query.QueryBlocksMatchLastField | src/query.rs:33-52 | every block in the final result passes the last field's name/label test |
| Query.BodyBlocksSelect | src/query.rs:54-61 | every block `body_query` yields passes the field's test |
| Lookup.AttrLookup | src/lookup.rs:36-43 | finds nothing iff the body has no attribute with the key; otherwise finds the value of the first such attribute |
| Lookup.BlockLookup | src/lookup.rs:45-52 | finds nothing iff no block has the identifier; otherwise finds the body of the first such block |
| Lookup.BodyLookup | src/lookup.rs:29-34 | an attribute with the name wins over any block; nothing is found iff neither exists |
| Lookup.ResultLookup | src/lookup.rs:54-71 | nothing stays nothing; it panics exactly on an object with a non-identifier name; a value found through an expression is an identifier-keyed entry of an object |
| Lookup.NonePropagates | src/lookup.rs:54-55 | once nothing is found, every remaining name gives nothing, without a panic |
| Lookup.ObjectLookupByIdentOnly | src/lookup.rs:58-62 | through an object, a value is found exactly when some entry has the identifier key |
| Lookup.StringKeyIgnored | src/lookup.rs:58-63 | an entry keyed by the string literal of the name is not found |
| Lookup.ScalarYieldsNothing | src/lookup.rs:57-64 | a non-object expression gives nothing |
| Lookup.BodyContinues | src/lookup.rs:65-67 | a body result continues with `body_lookup` on that body |
| Lookup.LookupIsFirstQueryMatch | src/lookup.rs:29-52 | the lookup of a name in a body finds nothing iff the unlabeled query finds nothing, and otherwise agrees with the query's first result |
| Lookup.AttrLookupIsFirstAttrMatch | src/lookup.rs:36-43 | the attribute lookup is the first result of the attribute query |
| Lookup.BlockLookupIsFirstBlockMatch | src/lookup.rs:45-52 | the block lookup is the body of the first result of the unlabeled block query |
| Hcl.RemoveAttribute | src/delete.rs:77 | `remove_attribute` drops exactly the first attribute with the key, keeping every other item in order; the key's count falls by one; a body without the key is unchanged |
| Hcl.RemoveBlocks | src/delete.rs:88 | `remove_blocks` is an order-preserving filter: the result is a subsequence of the body that holds no block with the identifier and every other item as often as the body does |
| Hcl.Insert | src/write.rs:102 | `insert` leaves the key present; it is a no-op when the key already exists, and appends otherwise |
| Hcl.ObjectGet | src/query.rs:101-107 | an object lookup finds nothing iff no entry has the key, and otherwise finds the first such entry's value |
| Hcl.RemoveEntry | src/delete.rs:122 | `remove` on an object drops the first entry with the key and keeps the others in order |
| Editor.SetFirstAttrValue | src/write.rs:83-87 | replaces the value of the first attribute with the key; key, decor and every other item are kept |
| Editor.VisitAttr | src/write.rs:107-116 | visiting an attribute keeps every key and decor, and never adds or removes items |
| Editor.EditAttrs | src/write.rs:83-87 | the attribute loop keeps the shapes of every item |
| Editor.EditAttrsCollapse | src/write.rs:83-87 | the loop over N equal keys replaces the first attribute's value once when the index is terminal; otherwise it changes nothing, because the value is not descended into |
| Editor.WriteBlocksNamed | src/write.rs:90-94 | every block with the identifier has its body written at the next index; other items are untouched |
| Editor.EditBlocks | src/write.rs:89-95 | the block loop keeps the shapes of every item |
| Editor.EditBlocksCollapse | src/write.rs:89-95 | the loop over N matching identifiers amounts to one pass over every block with the identifier |
| Editor.WriteBody | src/write.rs:50-105 | existing items keep their order and shapes; at most one item is added, at the end, and only at the terminal index: `name = value` with the last attribute's decor or the default |
| Editor.Write | src/write.rs:121-124 | no fields leaves the body unchanged; a panic happens only for a non-identifier last name, and always for a one-field filter with such a name; otherwise the result keeps the body's shapes as a prefix and adds at most one item |
| Editor.WriteBodyIsWritten | src/write.rs:50-116 | the index-driven visitor equals the item-by-item reference definition of the written body |
| Editor.VisitedItem | src/write.rs:83-95 | after both loops, an item is: the first matching attribute with the new value at the terminal index; a same-identifier block with its body written, when some block passes the gate; or unchanged |
| Editor.WriteAtLastField | src/write.rs:83-103 | at the last field, the first attribute with the key gets the value and nothing is added; with no such attribute, `name = value` is appended with the last attribute's decor or the default |
| Editor.LastFieldItems | src/write.rs:83-87 | at the last field, the reference items are the body with the first matching attribute's value replaced |
| Editor.WriteKeepsKeyUnique | src/write.rs:97-103 | an existing key is not duplicated: a body with at most one attribute with the key has exactly one afterwards |
| Editor.WriteBeforeLastField | src/write.rs:61-95 | before the last field, no item is added; a matching attribute's value is replaced whole when one field follows it (the index advances twice) and kept otherwise; every same-identifier block is descended into when some block passes the gate |
| Editor.WritePastLastField | src/write.rs:51 | past the last field (no current field), a body is unchanged |
| Editor.WriteIdempotent | src/write.rs:121-124 | writing the same value twice gives the same document as writing it once |
| Editor.LastAttrDecorIsLast | src/write.rs:55-60 | the saved decor is the decor of the body's last attribute, or none |
| Editor.TerminalVisitedThroughBlock | src/write.rs:89-98 | a body reached at the terminal index through a gated block triggers the insert, and with it the identifier check |
| Editor.NoDescentWithoutBlocks | src/write.rs:65-95 | with more than one field and no block of the first name, no body is visited at the terminal index |
| WriteExamples.WriteAttr | tests/write-tests.rs:3-15 | `.version` on `version = "test"` replaces the value and adds nothing |
| WriteExamples.WriteBlockAttr | tests/write-tests.rs:17-29 | `.options.enabled` rewrites the attribute inside the block |
| WriteExamples.WriteLabeledBlockAttr | tests/write-tests.rs:31-50 | a labeled block's attribute is rewritten and not duplicated |
| WriteExamples.WriteInsert | tests/write-tests.rs:52-67 | a missing key is appended after the existing attribute, with that attribute's decor |
| WriteExamples.ObjectValueReplacedWhole | src/write.rs:84-114 | `.a.b` on an attribute `a` replaces `a`'s whole value, because the index advances twice |
| WriteExamples.DeeperFieldsLeaveValue | src/write.rs:107-116 | `.a.b.c` on an attribute `a` leaves its object value alone, because object values are never descended into |
| WriteExamples.LabelOnlyGates | src/write.rs:65-95 | a label that matches one block makes every block with that identifier be written |
| WriteExamples.TwoBlocksWritten | src/write.rs:89-95 | when one block passes the gate, a second block with the same identifier but no shared label is written too |
| WriteExamples.GatedBlockWritten | src/write.rs:89-95 | any same-identifier block of a gated body has its body written at the next index |
| WriteExamples.WriteIntoEmpty | src/write.rs:97-103 | at the last field, an empty body gets `name = value` with the default decor |
| Deleter.MatchingEntryKeys | src/delete.rs:103-118 | every collected object key names the field, by identifier or by string literal |
| Deleter.MatchingEntryKeysCount | src/delete.rs:103-118 | every key naming the field is collected once per entry that carries it, and no other key is collected |
| Deleter.MatchingEntryKeysHas | src/delete.rs:103-118 | the key of any entry keyed by the field's name, by identifier or string literal, is among the collected keys |
| Deleter.DescendEntry | src/delete.rs:123-128 | the first entry with the key has its value processed at the next index; other entries are kept |
| Deleter.DeleteExpr | src/delete.rs:100-136 | an expression stays an object iff it was one |
| Deleter.DescendAttr | src/delete.rs:79-82 | the first attribute with the key has its value processed at the next index; other items are kept |
| Deleter.DeleteBlocksNamed | src/delete.rs:90-94 | every block with the identifier has its body processed at the next index |
| Deleter.Delete | src/delete.rs:140-147 | always `Ok`; no fields leaves the body unchanged |
| Deleter.Survivors | src/delete.rs:75-88 | the reference removal keeps exactly the items that are neither an attribute with the name nor, when gated, a block with the name |
| Deleter.EntrySurvivors | src/delete.rs:120-122 | the reference entry removal keeps exactly the entries whose key does not name the field |
| Deleter.RemovalAtLastField | src/delete.rs:75-88 | at the last field, the visitor removes every attribute with the name and, when some block passes the gate, every block with the name |
| Deleter.RemovalOfEntries | src/delete.rs:120-122 | at the last field, every entry keyed by the name (identifier or string) is removed from the object |
| Deleter.DeleteObjectIsPruned | src/delete.rs:100-136 | the object visitor equals the entry-by-entry reference definition |
| Deleter.DeleteBodyIsPruned | src/delete.rs:46-98 | the body visitor equals the item-by-item reference definition |
| Deleter.DescendedItem | src/delete.rs:75-96 | before the last field, each item is: the first matching attribute with its value processed; a same-identifier block with its body processed, when gated; or unchanged |
| Deleter.SurvivorsRemove | src/delete.rs:75-88 | after a terminal removal no attribute with the name is left, no block with the name is left when gated, every other item survives, and order is kept |
| Deleter.DeleteAtLastField | src/delete.rs:75-88 | the visitor at the last field is the reference removal |
| Deleter.DeleteBeforeLastField | src/delete.rs:78-95 | before the last field nothing is removed, and matches are descended into |
| Deleter.DeleteEntriesAtLastField | src/delete.rs:120-122 | the object visitor at the last field removes every entry keyed by the name |
| Deleter.DeleteEntriesBeforeLastField | src/delete.rs:123-128 | before the last field, the first entry of each matching key has its value processed, and nothing is removed |
| Deleter.NothingMatchesNothingChanges | src/delete.rs:46-97 | with no matching attribute and no gated block, the body is unchanged; there is no not-found error |
| Deleter.DeleteKeepsShapes | src/delete.rs:78-95 | before the last field, every item keeps its key, identifier, labels and decor |
| Deleter.DeleteOnlyRemoves | src/delete.rs:75-96 | the result is an order-preserving subsequence of the body, up to changed values and bodies: delete never inserts |
| Deleter.DeleteIdempotent | src/delete.rs:140-147 | deleting twice gives the same document as deleting once |
| DeleteExamples.DeleteAttr | tests/delete-tests.rs:3-13 | `.version` removes the attribute |
| DeleteExamples.DeleteLabeledBlock | tests/delete-tests.rs:15-26 | a labeled block is removed whole |
| DeleteExamples.DeleteLabeledBlockAttr | tests/delete-tests.rs:28-42 | deleting a labeled block's only attribute leaves an empty block |
| DeleteExamples.DeleteBlock | tests/delete-tests.rs:44-54 | an unlabeled block is removed whole |
| DeleteExamples.DeleteBlockAttr | tests/delete-tests.rs:56-66 | deleting a block's only attribute leaves an empty block |
| DeleteExamples.DeleteFromObject | tests/delete-tests.rs:68-78 | deleting an object's only entry leaves an empty object in place |
| DeleteExamples.DeleteFromNestedObject | tests/delete-tests.rs:80-96 | deletion descends through nested object entries |
| DeleteExamples.DeleteStringKeyedEntry | src/delete.rs:110-117 | an entry keyed by the string literal of the name is removed too |
| WriteCommand.SplitOn | src/bin/hq.rs:157 | splitting on `=` yields one more part than there are `=`, and no part contains `=` |
| WriteCommand.SplitJoin | src/bin/hq.rs:157 | joining the parts back with `=` restores the expression |
| WriteCommand.JoinSplit | src/bin/hq.rs:157 | splitting the join of parts without `=` gives the parts back |
| WriteCommand.ParseWriteExpr | src/bin/hq.rs:154-162 | accepted iff the expression has exactly one `=`; a rejection is the usage message; an accepted split gives the text before and after that `=` |
| WriteCommand.WriteExprRoundTrip | src/bin/hq.rs:157-162 | any filter and value without `=`, empty ones included, come back unchanged from `filter=value` |
| WriteCommand.ValueWithEqualsRejected | src/bin/hq.rs:157-160 | a value that contains `=` is rejected |

## Left out

- Editor.WriteBody: when one body holds several attributes with the same key, only the FIRST of them gets the new value (`get_attribute_mut` yields the first). A plain reading of the tool's intent is "every matching attribute". The model follows the code.
- Hcl.IsIdentifier: the HCL identifier rule uses Unicode XID_Start and XID_Continue; the model uses their ASCII part plus `-`.
- Scalars are opaque leaves. Delete's default visitor would also walk arrays, function calls and other expressions looking for objects; this model does not.
- Deleter.DeleteEntries: the `unreachable!()` branch of the object loop cannot be taken. Every collected key comes from the object, and an earlier removal only happens at the terminal index, where this branch is never consulted. The model leaves entries unchanged there.
- Lookup takes plain names rather than fields, as `lookup_field` does. It has no labels.
- The filter grammar and tokeniser are not part of this model. `parse_filter` is modelled from the grammar's outcome onward, as a sequence of pairs of (rule, text) tokens.
- Error rendering, HCL text parsing and formatting, `QueryResult::to_string`, and decor's byte-level content are left out. Decor is an opaque value.
- Stdin and file I/O, argument handling, `--inline` output, `src/main.rs` and the test-file reader are left out. So is the parsing of the value text into an expression after the split.
- query and lookup take the document by shared reference and never change it. The model's functions return new values, so this holds by construction and has no lemma.
- The two HCL libraries the tool uses (one for reading, one for editing) are represented by one abstract tree.
- A panic is a `Panics` outcome with no further content. Nothing of the partial edit survives it.
- `delete` returns `Result<(), Box<dyn Error>>`. The error field is never assigned, so the model's error type `DeleteError` has no cases that can occur, and `Deleter.Delete` always returns `Ok`.
