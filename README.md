# make_table: a model of the TTree scraper

`archeology/make_table.py` scrapes C++ analysis code that defines ROOT
TTrees. It looks for three things:

- statements that create a tree, through `owner->make<TTree>("name", "title")`
  or `new TTree("name", "title")`;
- `tree->Branch("name", ...)` calls;
- comments on, and assignments to, the C++ variables that hold the branch
  values.

It records what it finds in five sqlite tables: `srcfile`, `tree`, `branch`,
`srccomment` and `srcassign`.

This project models its core in Dafny. The core is:

- the eight regular expressions;
- `process_one_file`:
  - the `srcfile` lookup-or-insert;
  - tree discovery with its upsert and its two database errors;
  - branch discovery with the four argument shapes, ghost trees and the
    value-variable map;
  - correlation of comment and assignment lines through `shlex` tokens and
    two `re.search` tests;
- the per-file loop of `fill_db_tables`.

Layout:

- `strings.dfy`, `pieces.dfy`: matching primitives. Each piece of a regular
  expression becomes a "take" function on the remaining text, whose contract
  says `s == piece + rest`.
- `tree_patterns.dfy` models `RE_TTREE_1`, `RE_TTREE_2` and `RE_TTREE_ARGS`.
  `branch_patterns.dfy` models `RE_BRANCH` and the four `RE_BRANCH_ARGS_k`.
  - Each matcher has two halves:
    - soundness: its `ensures` says the text is the rendering of the
      captured parts;
    - completeness: a `...Text` lemma says the matcher gives back the parts
      of any rendering.
  - A generic leftmost search models `re.search`.
- `shlex.dfy` models the non-POSIX `shlex.shlex` tokenizer. `correlation.dfy`
  models the comment and assignment tests and the choice of identifiers
  on a line.
- `tables.dfy` holds the rows and the `SELECT`s. `passes.dfy` models the
  three passes, one file and the file loop, as functions of the tables.
- `repository.dfy` is a `Database` class holding the five tables as
  sequence fields, one method per SQL statement. `scraper.dfy` holds the
  imperative `process_one_file` and `fill_db_tables` over that class. Each
  of its methods is proved equal to the corresponding function of
  `passes.dfy`.
- `ghost_keys.dfy` holds the ghost-tree finding: the duplicate key as
  written, and the keyed ghost step with its invariant.
- `tree_properties.dfy`, `branch_properties.dfy`,
  `correlation_properties.dfy` and `scoping.dfy` prove what the passes
  guarantee.
- `scenarios.dfy` holds concrete runs:
  - lines 104, 268 and 273 of `Selection/AnalysisTools/EventWeightTree_tool.cc`;
  - correlation tests on sample lines;
  - a four-line file processed end to end.

Ids are sqlite rowids: the tables are only appended to, so the row at
index `k` has id `k + 1`. Rows written before a failure stay written,
because the connection is in autocommit mode.

One might expect the line `// x holds energy` to give a comment row for a
known value variable `x`. The code's comment test needs the marker to come
after an occurrence of the identifier, so it records no row for that line.
The model follows the code: `Scenarios.CommentLineFlags` proves that such a
line fails both tests, and `Scenarios.SampleFileRun` shows that a four-line
file built around it gives exactly one `srcassign` row and no `srccomment`
row.

Ghost trees are inserted without looking up their key (treename, fileid),
so the one-tree-per-key invariant holds for created trees only; see
"## Findings". `ghost_keys.dfy` exhibits the duplicate and proves the
invariant for a ghost step that looks the key up first.

## Model

| member | source | states |
|---|---|---|
| Strings.SkipSpaces | archeology/make_table.py:17-25 | ` *`: the text is the blanks skipped followed by a rest that does not start with a blank |
| Strings.SkipSpacesOf | archeology/make_table.py:17-25 | ` *` gives back exactly the blanks written before any rest not starting with a blank |
| Strings.TakeRun | archeology/make_table.py:17-25 | a greedy run of a character class (`\w*`-like): the text is the run followed by a rest whose first character is outside the class |
| Strings.TakeRunOf | archeology/make_table.py:17-25 | a run followed by a non-class character is taken back exactly |
| Strings.TakeSome | archeology/make_table.py:17-25 | `p+`: fails exactly when the text is empty or starts outside the class; otherwise a non-empty maximal run |
| Strings.TakeSomeOf | archeology/make_table.py:17-25 | `p+` gives back exactly a non-empty run followed by a non-class character |
| Strings.TakeLit | archeology/make_table.py:17-25 | a literal matches exactly when it is a prefix of the text, and the rest is what follows it |
| Strings.TakeCloser | archeology/make_table.py:22-25 | `[,)]` matches exactly when the text starts with `,` or `)` |
| Strings.SearchFrom | archeology/make_table.py:111-113 | `re.search`: a hit is a position from which the matcher succeeds |
| Strings.SearchFromLeftmost | archeology/make_table.py:111-113 | the hit is the leftmost such position; no hit means the matcher fails at every position |
| Strings.LeftmostNotExtended | archeology/make_table.py:17-18 | for a matcher that also succeeds one word character earlier, the leftmost hit is not preceded by a word character (the captured variable is a whole word) |
| Strings.Strip | archeology/make_table.py:219 | `str.strip()`: the result is a contiguous slice of the line with only white space cut on both sides, and does not start or end with white space |
| Pieces.LitGap | archeology/make_table.py:19 | `, *`: matches exactly when the text starts with the literal; the rest follows the blanks |
| Pieces.LitGapOf | archeology/make_table.py:19 | `, *` gives back exactly the literal and blanks written |
| Pieces.MatchOperandText | archeology/make_table.py:17 | `(\w+) *= *` and `\w+ *-> *` give back the word and both gaps written |
| Pieces.MatchKeywordsText | archeology/make_table.py:17 | `make *< *TTree *> *` gives back the gap after each keyword |
| Pieces.MatchNameArgText | archeology/make_table.py:17-18 | `\( *"(\w+)" *` gives back the quoted word and the gaps |
| TreePatterns.MatchMake | archeology/make_table.py:17 | a `RE_TTREE_1` match: the text is the rendering of a valid make<TTree> call followed by the rest |
| TreePatterns.MatchMakeText | archeology/make_table.py:17 | every rendering of a valid make<TTree> call is matched, with exactly its parts |
| TreePatterns.MatchNew | archeology/make_table.py:18 | a `RE_TTREE_2` match: the text is the rendering of a valid `new TTree` call followed by the rest |
| TreePatterns.MatchNewText | archeology/make_table.py:18 | every rendering of a valid `new TTree` call is matched, with exactly its parts |
| TreePatterns.MakeVarIsWholeWord | archeology/make_table.py:17 | the tree variable found by `re.search` with `RE_TTREE_1` is not preceded by a word character |
| TreePatterns.NewVarIsWholeWord | archeology/make_table.py:18 | the same for `RE_TTREE_2` |
| TreePatterns.ParenAfterBlanksSkip | archeology/make_table.py:19 | ` *\)` holds exactly when a `)` follows the blanks |
| TreePatterns.MatchTitle | archeology/make_table.py:19 | an `RE_TTREE_ARGS` match: the text is `, *"title" *)` with a title without newline |
| TreePatterns.MatchTitleIsGreedy | archeology/make_table.py:19 | the greedy `.*`: every way of reading the text as `, *"title" *\)` is matched, and the title taken is at least as long as any such reading's |
| TreePatterns.MatchTitleAt | archeology/make_table.py:19 | the title taken ends at the last closing quote that a `)` follows |
| TreePatterns.MatchTitleText | archeology/make_table.py:19 | with no quote in the title or after it, the match gives back exactly the parts written |
| TreePatterns.TitleFor | archeology/make_table.py:117-121 | the title is the `RE_TTREE_ARGS` group when that matches right after the creation, and otherwise the whole raw line as the model holds it, without its trailing newline |
| TreePatterns.FindCreation | archeology/make_table.py:111-116 | a creation's variable and tree name are words |
| TreePatterns.FindCreationOrder | archeology/make_table.py:111-116 | `RE_TTREE_1` is searched first, and decides when it hits; `RE_TTREE_2` only when it does not; no creation exactly when neither hits |
| BranchPatterns.MatchBranch | archeology/make_table.py:21 | an `RE_BRANCH` match: the text is the rendering of `tvar->Branch("bname"` followed by the rest |
| BranchPatterns.MatchBranchText | archeology/make_table.py:21 | every such rendering is matched with exactly its parts |
| BranchPatterns.BranchVarIsWholeWord | archeology/make_table.py:21 | the tree variable found by `re.search` is not preceded by a word character |
| BranchPatterns.MatchValueArg | archeology/make_table.py:22-25 | `&?([\w.]+) *`: a non-empty `[\w.]` name, the `&` only where allowed |
| BranchPatterns.MatchValueArgText | archeology/make_table.py:22-25 | the value argument written is given back exactly |
| BranchPatterns.MatchQuoted | archeology/make_table.py:22-24 | `"(p+)" *`: a non-empty quoted body of the class |
| BranchPatterns.MatchQuotedText | archeology/make_table.py:22-24 | a quoted body of the class is given back exactly |
| BranchPatterns.MatchQuotedStops | archeology/make_table.py:22-23 | a body holding a character outside the class before any quote does not match |
| BranchPatterns.ScalarLeafOf | archeology/make_table.py:22 | a word followed by `/?\w?` is a scalar leaf (`\w+/?\w?`) |
| BranchPatterns.ArrayLeafOf | archeology/make_table.py:23 | `word[index]` followed by `/?\w?` is an array leaf (`\w+\[\w+\]/?\w?`) |
| BranchPatterns.MatchLeafArgs | archeology/make_table.py:22-23 | `, *&?([\w.]+) *, *"(leaf)" *[,)]`: the captured groups satisfy their classes |
| BranchPatterns.MatchLeafArgsText | archeology/make_table.py:22-23 | the arguments written are given back exactly |
| BranchPatterns.MatchShape1 | archeology/make_table.py:22 | an `RE_BRANCH_ARGS_1` match carries a scalar leaf |
| BranchPatterns.MatchShape2 | archeology/make_table.py:23 | an `RE_BRANCH_ARGS_2` match carries an array leaf and no `&` |
| BranchPatterns.MatchShape3 | archeology/make_table.py:24 | an `RE_BRANCH_ARGS_3` match: a non-empty quote-free class name, then a value name and `[,)]` |
| BranchPatterns.MatchShape3Text | archeology/make_table.py:24 | the class name and value argument written are given back exactly |
| BranchPatterns.MatchShape4 | archeology/make_table.py:25 | an `RE_BRANCH_ARGS_4` match: a value name then `[,)]` |
| BranchPatterns.MatchShape4Text | archeology/make_table.py:25 | the value argument written is given back exactly |
| BranchPatterns.ClassifyArgsOrder | archeology/make_table.py:172-183 | shape k is chosen exactly when shapes before it fail and shape k matches (first match wins, in order 1-4); no shape exactly when all four fail; captured groups satisfy their shape's classes |
| BranchPatterns.LeafDefParts | archeology/make_table.py:172-181 | `bleafdef` is the leaf for shapes 1 and 2, `bname + " (" + quoted + ")"` for shape 3 and `bname + " (object)"` for shape 4 |
| BranchPatterns.LeafDefBlank | archeology/make_table.py:172-181 | a shape-1/2 leaf in its pattern's classes holds no blank, a synthesised shape-3/4 descriptor always holds one, both directions |
| BranchPatterns.LeafDefShowsShape | archeology/make_table.py:172-183 | for every classified argument text, the stored `bleafdef` holds a blank exactly when shape 3 or 4 was chosen |
| BranchPatterns.ValueArgNotQuote | archeology/make_table.py:22-25 | a value argument never starts with a quote |
| BranchPatterns.ClassifyShape1Text | archeology/make_table.py:172-173 | `, &x, "leaf")` is shape 1 with value `x` and leaf `leaf` |
| BranchPatterns.ClassifyShape2Text | archeology/make_table.py:174-175 | `, x, "w[n]/t")` without `&` is shape 2 |
| BranchPatterns.ClassifyShape3Text | archeology/make_table.py:176-178 | `, "cls", &x)` is shape 3 with the class name kept in its quotes |
| BranchPatterns.ClassifyShape4Text | archeology/make_table.py:179-181 | `, &x)` is shape 4 |
| BranchPatterns.ObjectNotType | archeology/make_table.py:24-25 | shape 3 never matches object arguments |
| BranchPatterns.ObjectNotLeaf | archeology/make_table.py:22-25 | shapes 1 and 2 never match object arguments that close with `)` |
| BranchPatterns.Shape1ShadowsShape4 | archeology/make_table.py:172-181 | text of shape 1 also matches shape 4, with the same value, and shape 1 is chosen |
| Shlex.SkipBlank | archeology/make_table.py:220 | skipping white space and `#` comments leaves text starting with neither |
| Shlex.QuoteRest | archeology/make_table.py:220 | a quoted string runs to the first closing quote, or to the end of the text when unclosed |
| Shlex.NextTokenIsToken | archeology/make_table.py:220 | each token read is a word, a quoted string or one punctuation character |
| Shlex.LexTokens | archeology/make_table.py:220-221 | every token of a line is a word, a quoted string or one punctuation character |
| Shlex.LexWordThen | archeology/make_table.py:220 | a word followed by a blank is the first token, and the rest is lexed on its own |
| Shlex.LexJoinWords | archeology/make_table.py:220 | words joined by blanks lex back to the same words |
| Shlex.DottedNameNotToken | archeology/make_table.py:221 | a value variable like `fEvt.run` is never a token, so it is never considered |
| Correlation.MarkerFrom | archeology/make_table.py:224 | `.*/[/*]`: holds exactly when a comment marker follows on the same line |
| Correlation.AssignFrom | archeology/make_table.py:230 | `[^=]*=[^=]`: holds exactly when the first `=` after the position is followed by a non-`=` character |
| Correlation.CommentFrom | archeology/make_table.py:224 | holds exactly when some occurrence of the identifier from the position is followed by a marker |
| Correlation.AssignSearchFrom | archeology/make_table.py:230 | holds exactly when some occurrence of the identifier from the position passes the assignment pattern |
| Correlation.HasCommentIff | archeology/make_table.py:224 | a comment row iff a `//` or `/*` follows an occurrence of the identifier with no newline between |
| Correlation.HasAssignIff | archeology/make_table.py:230 | an assign row iff after an occurrence of the identifier the first `=` is followed by a non-`=` character |
| Correlation.KeyIdents | archeology/make_table.py:221-222 | the identifiers considered are exactly the tokens that are keys of the value map, each once |
| CorrelationProperties.NoteRowsFields | archeology/make_table.py:222-234 | every row carries the line, a branch id of the map, the file and the line number |
| CorrelationProperties.NoteRowsContents | archeology/make_table.py:222-234 | the rows of a kind are exactly one per considered identifier whose test holds, carrying that identifier's branch |
| CorrelationProperties.NoteRowsCount | archeology/make_table.py:221-222 | with no identifier twice, there are as many rows as identifiers selected |
| CorrelationProperties.CorrelateStepRows | archeology/make_table.py:217-234 | one line appends to each table one row per known identifier among its tokens whose test holds, and none else |
| CorrelationProperties.CorrelateStepFrame | archeology/make_table.py:217-234 | a line changes only `srccomment` and `srcassign`, and only appends rows of the file |
| CorrelationProperties.CorrelateFromFrame | archeology/make_table.py:215-234 | the whole correlation pass only appends comment and assign rows of the file naming mapped branches |
| Tables.IdsWith | archeology/make_table.py:96-97 | a `SELECT`: exactly the ids of the rows that satisfy the condition, in ascending rowid order |
| Tables.IdsWithAppend | archeology/make_table.py:99-102 | an insert adds its id to a selection exactly when the new row satisfies it |
| Tables.IdsWithFirst | archeology/make_table.py:202 | no row before the first selected id satisfies the condition |
| Tables.FileIdsAppend | archeology/make_table.py:99-102 | inserting a file name adds its id to the lookup of that name only |
| Tables.TreeIdsAppend | archeology/make_table.py:132-142 | inserting a tree row adds its id to the lookup of its key only |
| Tables.TreeIdsFirst | archeology/make_table.py:198-202 | the tree id taken is the first row with that key |
| Tables.BranchIdsAppend | archeology/make_table.py:205-213 | inserting a branch row adds its id to the lookup of its (treeid, branchname) only |
| Tables.BranchIdsFirst | archeology/make_table.py:209-213 | the branch id taken is the first row with that (treeid, branchname) |
| Repository.Database.constructor | archeology/make_table.py:40 | the connection starts with the given tables |
| Repository.Database.SelectFileIds | archeology/make_table.py:96-97 | the ids of the `srcfile` rows with that name |
| Repository.Database.InsertSrcFile | archeology/make_table.py:99 | appends one `srcfile` row and changes nothing else |
| Repository.Database.SelectTrees | archeology/make_table.py:124-129 | the (treeid, row) pairs with that key, in rowid order |
| Repository.Database.SelectTreeIds | archeology/make_table.py:198-202 | the ids of the tree rows with that key |
| Repository.Database.InsertTree | archeology/make_table.py:132-135 | appends one tree row and changes nothing else |
| Repository.Database.SelectBranchIds | archeology/make_table.py:209-212 | the ids of the branch rows with that tree and name |
| Repository.Database.InsertBranch | archeology/make_table.py:205-208 | appends one branch row and changes nothing else |
| Repository.Database.InsertComment | archeology/make_table.py:225-228 | appends one `srccomment` row and changes nothing else |
| Repository.Database.InsertAssign | archeology/make_table.py:231-234 | appends one `srcassign` row and changes nothing else |
| Scraper.RegisterSrcFile | archeology/make_table.py:96-104 | the `srcfile` lookup-or-insert leaves the tables as the model's `RegisterFile`, and yields an id exactly when the name has one row |
| Scraper.UpsertTree | archeology/make_table.py:124-160 | the tree upsert leaves the tables, the variable map and the failure as `TreeUpsert` |
| Scraper.TreeLine | archeology/make_table.py:110-160 | one line of tree discovery is `TreeStep` |
| Scraper.DiscoverTrees | archeology/make_table.py:107-160 | the tree loop is `TreesFrom` over all lines, stopping at the first error |
| Scraper.EnsureTree | archeology/make_table.py:189-204 | the ghost-tree check is `WithTree` |
| Scraper.RecordBranch | archeology/make_table.py:189-213 | recording a recognised branch is `BranchRecord` |
| Scraper.BranchLine | archeology/make_table.py:166-213 | one line of branch discovery is `BranchStep` |
| Scraper.DiscoverBranches | archeology/make_table.py:162-213 | the branch loop is `BranchesFrom`, with a fresh value map |
| Scraper.InsertNotes | archeology/make_table.py:222-234 | the inner loop over identifiers is `AddNotes` |
| Scraper.CorrelateLine | archeology/make_table.py:218-234 | one line of correlation is `CorrelateStep` |
| Scraper.Correlate | archeology/make_table.py:215-234 | the correlation loop is `CorrelateFrom` |
| Scraper.ScanLines | archeology/make_table.py:106-234 | the three passes are `ScanFile` |
| Scraper.ProcessOneFile | archeology/make_table.py:46-236 | `process_one_file` is `ProcessFile` |
| Scraper.FillDbTables | archeology/make_table.py:40-43 | the file loop is `FillFrom`: each stripped name processed in turn, stopping at the first error |
| TreeProperties.RegisterFileOutcome | archeology/make_table.py:96-104 | an id exactly when the name had at most one row; then the name has exactly that row; only `srcfile` changes, by at most the one name; a second lookup is idempotent |
| TreeProperties.TreeUpsertFails | archeology/make_table.py:129-158 | the upsert fails iff the key has one row that differs in title, variable or line, or more than one row; a failure changes nothing else |
| TreeProperties.TreeUpsertStores | archeology/make_table.py:129-160 | after a good upsert the key has exactly one row, equal to the creation, the variable maps to it, and a row was inserted iff the key was new |
| TreeProperties.TreeUpsertKeepsUnique | archeology/make_table.py:124-142 | the upsert keeps (treename, fileid) unique |
| TreeProperties.TreesFromKeepsUnique | archeology/make_table.py:109-160 | tree discovery keeps (treename, fileid) unique; this covers the tree pass only, since a ghost tree of the branch pass can repeat a key |
| TreeProperties.UpsertFrame | archeology/make_table.py:124-160 | the upsert changes only `tree` and the variable map, appending rows of the file at that line |
| TreeProperties.TreeStepFrame | archeology/make_table.py:111-160 | the same for one line |
| TreeProperties.TreesFromFailed | archeology/make_table.py:148-158 | after a failure the pass does nothing more |
| TreeProperties.TreesFromFrame | archeology/make_table.py:109-160 | the tree pass only appends tree rows of the file at later lines |
| TreeProperties.UpsertKeeps | archeology/make_table.py:144-153 | a good upsert does not change the lookup of an existing key |
| TreeProperties.KeySettled | archeology/make_table.py:109-160 | once a key exists, the rest of a good pass leaves its lookup unchanged |
| TreeProperties.RerunUpsert | archeology/make_table.py:144-153 | upserting into the final tables of a good run behaves like upserting into the tables it saw |
| TreeProperties.RerunStep | archeology/make_table.py:144-153 | the same for one line of a good pass |
| TreeProperties.RerunFrom | archeology/make_table.py:109-160 | rerunning a good pass on its own result gives the same result |
| TreeProperties.TreesRerun | archeology/make_table.py:145-147 | a rerun of the tree pass over the same file adds no tree row and succeeds with the same map |
| TreeProperties.PinnedUpsert | archeology/make_table.py:147-153 | a key whose rows all lie on earlier lines makes a good upsert be of another name |
| TreeProperties.PinnedKeyAborts | archeology/make_table.py:147-153 | a later creation of a name already stored at an earlier line aborts the pass |
| TreeProperties.CreatedUpsert | archeology/make_table.py:130-142 | after a good upsert the key exists, on lines no later than this one |
| TreeProperties.SameNameFrom | archeology/make_table.py:130-153 | two creation lines with the same tree name make the pass fail |
| TreeProperties.SameNameTwiceAborts | archeology/make_table.py:147-153 | the same tree name created on two lines of a file aborts tree discovery |
| BranchProperties.BranchRecordRow | archeology/make_table.py:204-208 | a recognised call appends exactly the row (tree of its variable, name, leafdef, value variable, file, line) and changes only `tree` and `branch` |
| BranchProperties.BranchRecordTree | archeology/make_table.py:189-204 | a known variable keeps its tree; an unknown one adds the ghost row (tvar, "", tvar, -1) and maps to the first tree of that name in the file |
| BranchProperties.BranchRecordValue | archeology/make_table.py:209-213 | the value variable maps, overwriting any earlier entry, to the first branch row with that (treeid, branchname), the new row when none existed |
| BranchProperties.BranchRecordGhost | archeology/make_table.py:189-203 | the only tree rows a call adds are ghosts of variables that were unbound |
| BranchProperties.BranchStepFailure | archeology/make_table.py:167-183 | a line fails exactly when it holds a Branch call fitting no shape; the error names the file and line; nothing else changes |
| BranchProperties.BranchStepCount | archeology/make_table.py:165-208 | a good line adds one branch row iff it holds a Branch call |
| BranchProperties.BranchStepFrames | archeology/make_table.py:165-213 | a line adds only ghost trees and branch rows of the file |
| BranchProperties.BranchesFromFrame | archeology/make_table.py:165-213 | the branch pass adds only ghost trees, each variable's once, and branch rows of the file |
| BranchProperties.BranchesFromFailure | archeology/make_table.py:165-183 | the pass fails exactly with the first line whose Branch call fits no shape, naming file:line |
| BranchProperties.BranchesFromCount | archeology/make_table.py:165-208 | a good pass appends one branch row per line with a Branch call (rows are always appended, rerun or not) |
| Scoping.ScopedAddTree | archeology/make_table.py:132-135 | a tree row of a known file keeps every reference within its file |
| Scoping.ScopedAddBranch | archeology/make_table.py:205-208 | a branch row whose tree is of its file keeps references file-scoped |
| Scoping.ScopedAddNotes | archeology/make_table.py:225-234 | note rows naming branches of their file keep references file-scoped |
| Scoping.ScopedAddFile | archeology/make_table.py:99 | adding a file name keeps references file-scoped |
| Scoping.TreeUpsertOwned | archeology/make_table.py:124-160 | the upsert keeps the tables file-scoped and the variable map pointing at trees of the file |
| Scoping.TreesFromOwned | archeology/make_table.py:107-160 | the same for the tree pass |
| Scoping.TreesFromGrows | archeology/make_table.py:107-160 | the tree pass only extends the tables, with rows of the file |
| Scoping.GhostTreeRow | archeology/make_table.py:189-203 | a ghost insert appends (tvar, "", tvar, fid, -1) and maps the variable to a tree of the file |
| Scoping.WithTreeScoped | archeology/make_table.py:189-204 | the ghost check keeps the tables file-scoped |
| Scoping.BranchRecordScoped | archeology/make_table.py:204-208 | a branch row refers to a tree of its own file |
| Scoping.BranchRecordBidFile | archeology/make_table.py:209-213 | the branch id stored for the value variable is a branch row of the file |
| Scoping.BranchRecordOwned | archeology/make_table.py:189-213 | recording a branch keeps both maps pointing into the file |
| Scoping.BranchStepOwned | archeology/make_table.py:165-213 | the same for one line |
| Scoping.BranchesFromOwned | archeology/make_table.py:162-213 | the same for the branch pass |
| Scoping.BranchesFromGrows | archeology/make_table.py:162-213 | the branch pass only extends the tables, with rows of the file |
| Scoping.CorrelateFromScoped | archeology/make_table.py:215-234 | correlation keeps the tables file-scoped and adds only rows of the file |
| Scoping.ScanFileScoped | archeology/make_table.py:106-234 | the three passes keep the tables file-scoped and only add rows of the file |
| Scoping.RegisterFileScoped | archeology/make_table.py:96-104 | the `srcfile` step keeps the tables file-scoped |
| Scoping.ProcessFileScoped | archeology/make_table.py:46-236 | one file keeps the tables file-scoped, only extends them, adds at most its own name, and adds only rows of its id |
| Scoping.FillFromScoped | archeology/make_table.py:42-43 | the file loop keeps the tables file-scoped and only extends them |
| GhostKeys.GhostRepeatsKey | archeology/make_table.py:189-203 | a Branch call on an unmapped variable whose name already keys a tree row of the file adds one row and breaks key uniqueness |
| GhostKeys.TwoLineTrees | archeology/make_table.py:109-160 | the tree pass over two lines of which only the first creates gives that one tree, id 1 |
| GhostKeys.GhostBesideCreated | archeology/make_table.py:189-213 | the ghost of `x` beside a created tree named `x` is appended, and `x` maps to the created tree, the first row under the key |
| GhostKeys.TwoLineBranches | archeology/make_table.py:163-213 | the branch pass over such a file appends the ghost and a branch on the created tree |
| GhostKeys.TwoLineRun | archeology/make_table.py:94-234 | `process_one_file` on such a file succeeds with two tree rows under one key |
| GhostKeys.SharedKey | archeology/make_table.py:124-158 | two rows under one (treename, fileid) break key uniqueness |
| GhostKeys.DupLines | archeology/make_table.py:17-21 | the creation line matches `RE_TTREE_1` and not `RE_BRANCH`; the Branch line matches `RE_BRANCH` as shape 1 and no creation pattern |
| GhostKeys.GhostSharesCreatedKey | archeology/make_table.py:189-203 | `a = owner->make<TTree>("x", ...)` then `x->Branch(...)`: the run succeeds with the created and a ghost row under (x, 1), branch on the created one |
| GhostKeys.UpsertKeepsCreated | archeology/make_table.py:124-158 | the upsert keeps created trees unique per key, ghosts present or not |
| GhostKeys.TreesFromKeepsCreated | archeology/make_table.py:109-160 | the tree pass keeps created trees unique per key |
| GhostKeys.BranchesFromKeepsCreated | archeology/make_table.py:163-213 | the branch pass appends only ghost rows, so created trees stay unique per key |
| GhostKeys.ScanFileKeepsCreated | archeology/make_table.py:107-234 | the three passes keep created trees unique per key |
| GhostKeys.FillFromKeepsCreated | archeology/make_table.py:42-43 | over a whole run, failing or not, created trees keep one row per (treename, fileid) |
| GhostKeys.KeyedWithTree | archeology/make_table.py:185-204 | the corrected ghost step: an unmapped variable always ends up mapped |
| GhostKeys.KeyedWithTreeFree | archeology/make_table.py:185-204 | on a free key the corrected ghost step is the source's ghost step |
| GhostKeys.AppendFreeKeepsUnique | archeology/make_table.py:124-135 | a row appended under a free key keeps every key unique |
| GhostKeys.GhostKeepsUnique | archeology/make_table.py:189-203 | a ghost under a free key keeps every key unique |
| GhostKeys.KeyedWithTreeUnique | archeology/make_table.py:185-204 | the corrected step adds the ghost only under a free key, reuses a taken key, keeps keys unique and changes nothing else |
| GhostKeys.KeyedBranchStepUnique | archeology/make_table.py:163-213 | one line of the corrected branch pass keeps keys unique |
| GhostKeys.KeyedBranchesFromUnique | archeology/make_table.py:163-213 | the corrected branch pass keeps keys unique |
| GhostKeys.KeyedScanFileUnique | archeology/make_table.py:107-234 | the three passes with the corrected ghost step keep keys unique |
| GhostKeys.KeyedFillFromUnique | archeology/make_table.py:42-43 | with the corrected ghost step, one tree row per (treename, fileid) holds over a whole run, ghosts included |
| Scenarios.NoCreationWithoutEquals | archeology/make_table.py:111-115 | a line without `=` creates no tree |
| Scenarios.NoCreationWithoutArrowOrN | archeology/make_table.py:111-115 | a line with neither `-` nor `n` creates no tree |
| Scenarios.NoBranchWithoutB | archeology/make_table.py:167-169 | a line without `B` holds no Branch call |
| Scenarios.MakeAfterPrefix | archeology/make_table.py:111 | after a prefix without `=` that ends off a word, the search finds the creation where it was written |
| Scenarios.BranchAfterPrefix | archeology/make_table.py:167 | after a prefix without `-` that ends off a word, the search finds the Branch call where it was written |
| Scenarios.CreateLineFound | archeology/make_table.py:111-121 | `v = owner->make<TTree>("name", "title")` gives variable `v`, name `name` and title `title` |
| Scenarios.LeafLineFound | archeology/make_table.py:172-173 | `v->Branch("b", &x, "leaf")` is a shape-1 call on `v` |
| Scenarios.TypeLineFound | archeology/make_table.py:176-178 | `v->Branch("b", "cls", &x)` is a shape-3 call on `v` |
| Scenarios.BranchStepOn | archeology/make_table.py:167-183 | a line holding a call of known shape is recorded |
| Scenarios.Line104Creation | Selection/AnalysisTools/EventWeightTree_tool.cc:104 | the line creates tree `EventWeights` titled `EventWeights TTree` in `_weightstree` |
| Scenarios.Line268Branch | Selection/AnalysisTools/EventWeightTree_tool.cc:268 | the line is a shape-3 call of branch `weights` on `_weightstree`, value `_mapWeight` |
| Scenarios.Line273Branch | Selection/AnalysisTools/EventWeightTree_tool.cc:273 | the same Branch call, on the unbound variable `_tree` |
| Scenarios.MapLeafDef | archeology/make_table.py:176-178 | that call's leaf definition is `weights ("std::map<...>")` |
| Scenarios.Line273Ghost | archeology/make_table.py:189-208 | with `_tree` unbound, the line adds the ghost tree (`_tree`, "", `_tree`, -1) and its branch row at line 273 |
| Scenarios.NoCommentWithoutMarker | archeology/make_table.py:224 | a line without a comment marker gives no comment row |
| Scenarios.NoAssignWithoutEquals | archeology/make_table.py:230 | a line without `=` gives no assign row |
| Scenarios.NoFlagsWithoutMention | archeology/make_table.py:224-230 | an identifier whose first character is absent passes neither test |
| Scenarios.StripClean | archeology/make_table.py:219 | a line without white space at its ends is left unchanged by strip |
| Scenarios.CommentLineFlags | archeology/make_table.py:224-230 | `// x note` passes neither test for `x`: the marker precedes the identifier |
| Scenarios.AssignLineFlags | archeology/make_table.py:224-230 | `x = rhs` passes the assignment test and not the comment test |
| Scenarios.AssignAt | archeology/make_table.py:230 | an identifier at the start followed by a lone `=` passes the assignment test |
| Scenarios.CommentAt | archeology/make_table.py:224 | an identifier at the start followed later by a marker passes the comment test |
| Scenarios.CommentedAssignFlags | archeology/make_table.py:224-230 | `x = 5; // note` passes both tests, so it gives a comment row and an assign row |
| Scenarios.EqualityNotAssign | archeology/make_table.py:230 | `y == rhs` gives no assign row |
| Scenarios.KeyIdentsOne | archeology/make_table.py:221 | with one known identifier, a line considers it exactly when it is among the tokens |
| Scenarios.AssignStep | archeology/make_table.py:217-234 | a line whose one identifier passes only the assignment test adds one `srcassign` row with the stripped line |
| Scenarios.FourLineRun | archeology/make_table.py:46-236 | a fresh four-line file with a creation, a branch and a last line that only assigns yields exactly the srcfile, tree, branch and one assign row |
| Scenarios.SampleTrees | archeology/make_table.py:106-160 | the sample file's tree pass inserts its one tree at line 1 |
| Scenarios.SampleBranches | archeology/make_table.py:161-213 | the sample file's branch pass inserts one shape-1 branch at line 2 and maps its value variable to it |
| Scenarios.SampleNotes | archeology/make_table.py:214-234 | the sample file's correlation adds only the assign row of line 4 |
| Scenarios.SampleFileRun | archeology/make_table.py:46-236 | processing the sample file into empty tables yields exactly those five groups of rows and no failure; the comment line gives no row |

## Left out

- TreePatterns.TitleFor: a line is held without its trailing newline, so
  the fallback title (the whole line, when `RE_TTREE_ARGS` does not match)
  lacks the `\n` the source stores for every newline-terminated line.
- TreeProperties.TreesFromKeepsUnique: one row per (treename, fileid) is
  proved through the tree pass only. As written, the ghost trees of the
  branch pass can repeat a key (`GhostKeys.GhostSharesCreatedKey`); over a
  whole run only created trees stay unique (`GhostKeys.FillFromKeepsCreated`).
- Opening files and reading the listing are not modelled. A file's
  contents are a parameter map from names to their lines; an unopenable
  name ends the run with `CannotOpen`. Universal-newline translation is
  not modelled: a line is its text without the newline.
- sqlite is modelled as append-only sequences with rowid = index + 1. A
  `SELECT` without `ORDER BY` is assumed to return rows in rowid order.
  The `create_tables.sql` schema and its constraints are not part of this
  model, so no insert can fail.
- `\w` is ASCII `[A-Za-z0-9_]`. Python's Unicode word characters are not
  modelled.
- `shlex`'s `ValueError` on an unclosed quote is not modelled: the open
  quoted token is kept instead.
- Python's set iteration order for `bvset` is replaced by first-appearance
  order. The rows of one line may come in another order in sqlite.
- `write_csv_table`, `write_html_table`, the `main` block and the
  `EventWeightTree` tool are left out. The tool is only a source of sample
  lines.
- `assert len(fids) == 1` is modelled as a failure (`SrcFileNotUnique`).
  That the check disappears under `python -O` is not modelled.
- Lines 269-271 and 274-280 of `EventWeightTree_tool.cc` are not written
  out literally. `Scenarios.LeafLineFound` and `Scenarios.TypeLineFound`
  cover their shapes generically.
- Scenarios.SampleFileRun: stated for one family of four-line files built
  from parameters, not for every file. General files are covered by the
  property lemmas above.

## Findings

| source | as written | input that shows it | evidently intended | confidence | as-written member | corrected member |
|---|---|---|---|---|---|---|
| archeology/make_table.py:189-203 | the ghost tree is inserted without looking up (treename, fileid), and the SELECT after it takes the first row under that key | a file with `a = owner->make<TTree>("x", "t")` then `x->Branch("b", &v, "v/I")` gives two tree rows under ("x", fid); so does a second run over any file with a ghost tree | one tree row per (treename, fileid), as the tree upsert enforces (make_table.py:124-158): an unmapped variable reuses the row already under its key | medium, not executed | GhostKeys.GhostSharesCreatedKey | GhostKeys.KeyedFillFromUnique |

The passes of `passes.dfy` and the methods of `scraper.dfy` follow the code
as written. The corrected ghost step, `GhostKeys.KeyedWithTree`, is used by
the corrected passes `GhostKeys.KeyedBranchesFrom` to `GhostKeys.KeyedFillFrom`,
which agree with the written ones whenever the key is free
(`GhostKeys.KeyedWithTreeFree`).
