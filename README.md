# Historic queries and journal changes of OpenProject, in Dafny

This project models two parts of OpenProject 12.5.7.

**The historic query rewriter** is `Journable::HistoricActiveRecordRelation`. It takes an ActiveRecord relation over a live table (`work_packages`) and a timestamp. It rewrites the relation so that it reads the journal table (`work_package_journals`) instead. The `journals` table and the live table, aliased `journables`, are joined in to recover `id`, `created_at` and `updated_at`.

The model has these parts:
- the where predicates, as a small Arel syntax tree (`Arel`, `HistoricRules`);
- the eight-step `gsub!` pass over SQL strings;
- `pluck`'s column mapping, the three-way select decision and the joins added to the relation (`HistoricQuery`);
- the order-clause and join-node rewrites of the compiled query (`HistoricQuery`).

The objects the source edits in place are classes (`HistoricRelation`):
- the relation and its shared `@values` hash;
- the arrays of predicates, orders and join nodes;
- the `@arel` memo.

Each method that edits them is proved against the functions above.

**The journal change computation** is the `JournalChanges` mixin (`JournalChanges`). It computes what a journal changed against its predecessor:
- the journaled attributes;
- the attachments;
- the custom values.

Association rows are merged by id. The values of each id are combined, sorted and comma-joined. Each id is classified as added, removed or changed. The result is keyed `"<association>_<id>"`. `get_changes` memoises the result in `@changes`. It is a method of the class `Journal`.

Supporting modules:
- `Text`: `gsub`, Ruby's `strip` and `join`;
- `Decimal`: decimal rendering of ids;
- `Collation`: sorting strings;
- `Passes`: a pass that rewrites a list of nodes in order and stops at the first raise;
- `Wrappers`: `Option` and `Result`.

## Model

| member | source | states |
|---|---|---|
| HistoricRules.SubstitutePredicate | app/models/journable/historic_active_record_relation.rb:171-203 | Raises exactly when the tree holds a node that is not a string, a listed comparison or a grouping, a comparison whose left side is a literal, or a `HomogeneousIn` on `created_at` of the live or journal table. The raise is `NotImplementedError`, or `NoMethodError` for `relation` (the literal) or `left=` (the `HomogeneousIn`). The rewritten tree keeps the shape of the input. A raw SQL string predicate never raises and becomes its string pass. |
| HistoricRules.ComparisonColumnRule | app/models/journable/historic_active_record_relation.rb:175-195 | A comparison on the live or journal table is rewritten by column: `id` becomes `journals.journable_id`; `updated_at` moves to `journals`; `created_at` becomes the literal `"journables"."created_at"`, except in a `HomogeneousIn`, which has no `left=` and raises `NoMethodError` unchanged; any other column moves to the journal table. Kind and value are kept. |
| HistoricRules.OtherTableUntouched | app/models/journable/historic_active_record_relation.rb:184 | A comparison on any other table is returned unchanged and raises nothing. |
| HistoricRules.GroupingRewritesBothSides | app/models/journable/historic_active_record_relation.rb:197-199 | A grouping is rewritten by rewriting its left and its right side. |
| HistoricRules.SubstituteAllRaisesIffUntranslatable | app/models/journable/historic_active_record_relation.rb:142-147 | The loop over the where predicates raises iff some predicate cannot be translated. When it does not raise, each predicate is rewritten by its own rule. |
| Passes.RunPassRaisesIff | app/models/journable/historic_active_record_relation.rb:143-145 | A pass over nodes raises iff the step raises on some node; when it does not, every node is replaced by its own rewrite. |
| Passes.RunPassUpTo | app/models/journable/historic_active_record_relation.rb:143-145 | A pass given where it stops: the nodes up to the first raising one are rewritten, the ones after it kept, and the pass raises what that node raised. |
| HistoricRules.SubstituteAllUpTo | app/models/journable/historic_active_record_relation.rb:142-147 | When the first `i` predicates are translatable and predicate `i`, if any, is not, the loop rewrites the predicates up to and including `i`, keeps the ones after it, and raises what predicate `i` raised. |
| HistoricRules.SecondPass | app/models/journable/historic_active_record_relation.rb:184-195 | For a valid model and a translatable tree without raw SQL strings: rewriting the rewritten tree raises iff the tree compares `created_at` of the live or journal table, since the literal put there has no relation. Otherwise the second pass changes nothing. |
| HistoricRules.TableNameSubstitutions | app/models/journable/historic_active_record_relation.rb:330-338 | The string pass is eight substitutions in source order, bare and quoted form of each, and each one is well formed. |
| HistoricRules.GsubBareColumn | app/models/journable/historic_active_record_relation.rb:330-338 | The string pass maps a bare `<table>.<column>` to `journals.updated_at`, `journables.created_at`, `journals.journable_id` or `<journal_table>.<column>`. Because the patterns are not bounded on the right, `<table>.identifier` becomes `journals.journable_identifier`. |
| HistoricRules.GsubQuotedColumn | app/models/journable/historic_active_record_relation.rb:330-338 | The string pass maps a quoted `"<table>"."<column>"` to the SQL of the same target that the comparison rule chooses. |
| HistoricRules.GsubIgnoresOtherSql | app/models/journable/historic_active_record_relation.rb:330-338 | SQL that mentions the live table in neither form is left unchanged. |
| HistoricQuery.PluckAgreesWithStringPass | app/models/journable/historic_active_record_relation.rb:76-94 | `pluck` maps `id`, `created_at` and `updated_at` to what the string pass makes of `<table>.<column>`. It maps a column missing from the journal table to exactly `null as <column>`, and leaves every other column as it is. |
| HistoricQuery.PluckMatchesProjection | app/models/journable/historic_active_record_relation.rb:76-94 | Each column `pluck` produces for `id`, `created_at`, `updated_at` or a missing column appears in the default select list. |
| HistoricQuery.ColumnSelectDefinitions | app/models/journable/historic_active_record_relation.rb:272-283 | The default select list is `<journal_table>.*`, then `id`, `created_at` and `updated_at` each read as `pluck` reads them and named after themselves, then `'<timestamp>' as timestamp`, then one `null as <c>` per missing column, in order. |
| HistoricQuery.SelectColumnsThreeWays | app/models/journable/historic_active_record_relation.rb:257-270 | An empty select becomes the joined default list. A single `<journal_table>.id` becomes `journals.journable_id as id`. Any other select is kept. The result is never empty, and deciding again keeps it. |
| HistoricQuery.JournablesColumns | app/models/journable/historic_active_record_relation.rb:221-226 | The `journables` subquery selects `id` and `created_at`, and selects `project_id` iff projects are included. |
| HistoricQuery.AddJoin | app/models/journable/historic_active_record_relation.rb:221-238 | `joins`, which takes the union of the join list and the new join, leaves each join once, in the order of first occurrence, with the new join at the end unless it was there already. Repeats already in the list are dropped too. |
| HistoricQuery.DedupKeepsFirstOccurrences | app/models/journable/historic_active_record_relation.rb:223 | Joining more never moves or drops a join already kept: the first occurrences stay first, in their order. |
| HistoricQuery.JoinsAtTheEnd | app/models/journable/historic_active_record_relation.rb:221-238 | The `journables` and projects joins, not there yet, end the join list in that order, with no join repeated. |
| HistoricQuery.ProjectsJoinIffIncluded | app/models/journable/historic_active_record_relation.rb:233-247 | The projects join is added iff `includes` holds `:project`. Only then are `includes`, `eager_load` and `preload` dropped, and the joins become the earlier ones without repeats followed by the projects join. Nothing else changes. |
| HistoricQuery.PreparedJoins | app/models/journable/historic_active_record_relation.rb:208-247 | The prepared relation joins `journals` first, then the earlier joins each once in order of first occurrence, then `journables`, then `projects` when included; no join occurs twice. It adds the timestamp scope at the end. |
| HistoricQuery.RebuildPreparesSameRelation | app/models/journable/historic_active_record_relation.rb:208-210 | Building a relation again puts the journals join before it a second time; `joins` drops the repeat, so the relation is prepared exactly as the first time. |
| HistoricQuery.RewriteOrder | app/models/journable/historic_active_record_relation.rb:288-298 | An order clause raises iff it is a direction over a literal, a `NullsFirst`/`NullsLast` wrapper (`NoMethodError` for `relation`) or a node without `expr` (`NoMethodError` for `expr`); a raising clause is kept as it is. An SQL order goes through the string pass, and a direction keeps its direction. |
| HistoricQuery.OrderAgreesWithWhereRule | app/models/journable/historic_active_record_relation.rb:291-297 | An order on the live table maps `id` to `journals.journable_id` and any other column to the journal table. This agrees with the where rule iff the column is neither `created_at` nor `updated_at`. |
| HistoricQuery.OrderOnOtherTableUntouched | app/models/journable/historic_active_record_relation.rb:291 | An order on another table is kept unchanged. |
| HistoricQuery.OrderRewriteSettles | app/models/journable/historic_active_record_relation.rb:291-297 | A structured order rewritten once is off the live table, so a second build over the same order node leaves it as it is. |
| HistoricQuery.RewriteOrdersRaisesIffUnhandled | app/models/journable/historic_active_record_relation.rb:287-301 | The order loop raises iff some clause is one it cannot handle. Otherwise each clause is rewritten by its own rule. |
| HistoricQuery.RewriteOrdersUpTo | app/models/journable/historic_active_record_relation.rb:288-299 | When the first `i` clauses can be handled and clause `i`, if any, cannot, the loop rewrites the clauses before `i`, keeps `i` and the clauses after it, and raises what clause `i` raised. |
| HistoricQuery.RewriteOnOperand | app/models/journable/historic_active_record_relation.rb:311-317 | An ON operand changes iff it is `<journal_table>.id`, and then it becomes `journals.journable_id`. |
| HistoricQuery.RewriteJoin | app/models/journable/historic_active_record_relation.rb:307-320 | A string join becomes the string pass of its SQL. An ON join keeps its kind and table and has both operands rewritten by the operand rule. Any other join node is untouched. |
| HistoricQuery.RewriteOnJoinSettles | app/models/journable/historic_active_record_relation.rb:310-318 | Rewriting an ON join keeps its kind and relation, and rewriting it twice is rewriting it once. |
| HistoricRelation.SelectManager.ModifyOrderClauses | app/models/journable/historic_active_record_relation.rb:287-301 | The in-place loop leaves the orders array and the raise as the order rewrite of the old array prescribes, including the clauses left unchanged after a raise. |
| HistoricRelation.SelectManager.ModifyJoins | app/models/journable/historic_active_record_relation.rb:305-323 | The in-place loop leaves each join node rewritten by the join rule. |
| HistoricRelation.BuildArelRaisesIff | app/models/journable/historic_active_record_relation.rb:104-118 | `build_arel` raises if a predicate is untranslatable, and then leaves joins and order values as they were. Otherwise it puts the `journals` join first and raises iff an order value is one the order loop cannot handle. The relation keeps its SQL order values. Without a raise, each predicate is rewritten by its rule, each of the query's orders is the rewrite of the relation's order value, and the relation's structured order values are those rewritten nodes. |
| HistoricRelation.BuildArelJournalsJoinFirst | app/models/journable/historic_active_record_relation.rb:107-115 | When `build_arel` does not raise, the relation handed to `original_build_arel` has the `journals` join first. |
| HistoricRelation.PluckRaisesOnCreatedAt | app/models/journable/historic_active_record_relation.rb:95-96 | `pluck` on a relation not yet built whose where clause compares `created_at` of the live or journal table (without raw SQL) always raises: the first build raises, or the second build meets the literal the first put in place of the attribute. |
| HistoricRelation.HistoricActiveRecordRelation.Copy | app/models/journable/historic_active_record_relation.rb:59-67 | For a relation not yet built or loaded, the copy shares its values hash, has no compiled query, marks the shared hash readonly, keeps the timestamp and reads from the journal table. |
| HistoricRelation.HistoricActiveRecordRelation.New | app/models/journable/historic_active_record_relation.rb:56-67 | Construction fails with `ArgumentError` "Expected ActiveRecord::Relation" for anything but a relation, and with `ImmutableRelation` for a relation whose query was built or whose records were loaded, changing nothing. It succeeds exactly otherwise, as `Copy`. |
| HistoricRelation.HistoricActiveRecordRelation.EagerLoading | app/models/journable/historic_active_record_relation.rb:124-126 | Eager loading is never on, so included projects must be joined explicitly. |
| HistoricRelation.HistoricActiveRecordRelation.SubstituteInWhereClause | app/models/journable/historic_active_record_relation.rb:142-147 | The in-place loop leaves the predicate array and the raise as the where rewrite of the old array prescribes. |
| HistoricRelation.HistoricActiveRecordRelation.BuildArel | app/models/journable/historic_active_record_relation.rb:104-118 | After `build_arel`, the shared hash holds the rewritten where clause, the joins and the structured order values the query rewrote, even when a later step raised. Its SQL order values are kept, and nothing else in it changes. The table is the journal table. The result is the compiled query with its orders and joins rewritten, or the raise. |
| HistoricRelation.HistoricActiveRecordRelation.CompileQuery | app/models/journable/historic_active_record_relation.rb:114-117 | The compiled query's order nodes are rewritten in place. The structured ones are the relation's own order values, so their rewrite shows in the relation, while its SQL orders were copied into new literals and stay as they were. The join nodes are rewritten. The result is the query or the raise of the order loop. |
| HistoricRelation.HistoricActiveRecordRelation.Arel | app/models/journable/historic_active_record_relation.rb:95 | The memo is returned unchanged when present. Otherwise the query is built and remembered on success. |
| HistoricRelation.HistoricActiveRecordRelation.Pluck | app/models/journable/historic_active_record_relation.rb:76-97 | The column names are mapped by the pluck mapping into a list of their own, which is returned. Then the relation's own query is built unless kept, and a copy selecting the mapped columns is built. The raise and the shared where clause are those of the first build if it raised, else of the second. The relation's other values are those the first build left. |
| HistoricRelation.HistoricActiveRecordRelation.PluckedColumns | app/models/journable/historic_active_record_relation.rb:77-94 | The argument array of `pluck` holds, after its `map!`, the column `pluck` reads for each name, in order. |
| HistoricRelation.HistoricActiveRecordRelation.MapColumnNames | app/models/journable/historic_active_record_relation.rb:77-94 | Each column name in the array is replaced in place by the column `pluck` reads for it. |
| HistoricRelation.HistoricActiveRecordRelation.PluckFromCopy | app/models/journable/historic_active_record_relation.rb:96 | The copy built by ActiveRecord's `pluck` selects the plucked columns; the shared where clause ends as that build leaves it, and the raise is that build's. |
| JournalChanges.SelectAndCombine | lib_static/plugins/acts_as_journalized/lib/journal_changes.rb:117-125 | The combined value is `nil` iff no row has the id. |
| JournalChanges.SelectAndCombineValue | lib_static/plugins/acts_as_journalized/lib/journal_changes.rb:117-125 | For an id with rows, the combined value is the id's values, each as often as its rows, sorted and joined with `,`. |
| JournalChanges.SelectAndCombineIgnoresOrder | lib_static/plugins/acts_as_journalized/lib/journal_changes.rb:117-125 | The combined value of an id is the same for any ordering of the rows. |
| JournalChanges.MergeById | lib_static/plugins/acts_as_journalized/lib/journal_changes.rb:108-115 | The merged keys are exactly the ids of both sides. The old value is present iff the id has an old row, and the new value iff it has a new row. No entry is `[nil, nil]`. Each id maps to `[combined old value, combined new value]`. |
| JournalChanges.ClassificationsExclusive | lib_static/plugins/acts_as_journalized/lib/journal_changes.rb:87-100 | No pair is both added and removed, added and changed, or removed and changed. |
| JournalChanges.PaddingIsNoChange | lib_static/plugins/acts_as_journalized/lib/journal_changes.rb:97-100 | A value and the same value padded with white space are neither added, removed nor changed. |
| JournalChanges.SelectionsMerge | lib_static/plugins/acts_as_journalized/lib/journal_changes.rb:80-82 | Merging the added, removed and changed selections gives exactly the entries that are one of the three, each kept as merged. |
| JournalChanges.ChangeKeyInjective | lib_static/plugins/acts_as_journalized/lib/journal_changes.rb:104 | Different ids give different `"<association>_<id>"` keys. |
| JournalChanges.ToChangesFormat | lib_static/plugins/acts_as_journalized/lib/journal_changes.rb:102-106 | Each id becomes its key with its pair, and every key comes from an id. |
| JournalChanges.ChangesOnAssociationEntries | lib_static/plugins/acts_as_journalized/lib/journal_changes.rb:77-85 | An id has an entry iff it is added, removed or changed, and the entry is its merged pair. Every key names an id of either side. |
| JournalChanges.IdenticalRowsNoChanges | lib_static/plugins/acts_as_journalized/lib/journal_changes.rb:77-125 | Rows equal to the predecessor's give no change. |
| JournalChanges.SwappingSidesSwapsPairs | lib_static/plugins/acts_as_journalized/lib/journal_changes.rb:77-125 | Swapping current and predecessor gives the same keys with each pair reversed, turning added into removed. |
| JournalChanges.ChangesIgnoreRowOrder | lib_static/plugins/acts_as_journalized/lib/journal_changes.rb:77-125 | The association changes do not depend on the order of the rows on either side. |
| JournalChanges.AssociationKeysDisjoint | lib_static/plugins/acts_as_journalized/lib/journal_changes.rb:40-41 | Attachment keys and custom-field keys never collide. |
| JournalChanges.InitialJournalDataChanges | lib_static/plugins/acts_as_journalized/lib/journal_changes.rb:46-54 | An initial journal has an entry exactly for each attribute with a value, and every old value is `nil`. |
| JournalChanges.InitialChangesRecoverData | lib_static/plugins/acts_as_journalized/lib/journal_changes.rb:46-54 | The new values of the initial changes are the attributes with their `nil`s compacted away. |
| JournalChanges.InitialAssociationKeys | lib_static/plugins/acts_as_journalized/lib/journal_changes.rb:63-68 | Without a predecessor, an association's keys are exactly the keys of its rows' ids. |
| JournalChanges.InitialAssociationLastRowWins | lib_static/plugins/acts_as_journalized/lib/journal_changes.rb:63-68 | Without a predecessor, each key holds `[nil, value]` of the last row with that id. |
| JournalChanges.ComputeChangesKeepsEachPart | lib_static/plugins/acts_as_journalized/lib/journal_changes.rb:34-41 | The merged result keeps every attachment and custom-field change. It keeps every attribute change of the branch the predecessor selects (initial without one, the differ's otherwise) unless an association key takes its place. |
| JournalChanges.Journal.GetChanges | lib_static/plugins/acts_as_journalized/lib/journal_changes.rb:30-42 | A memoised result is returned unchanged. Without data the result is `{}` and nothing is remembered. Otherwise the attribute changes are merged in place with the two association changes and remembered. |

## Left out

- SQL execution and ActiveRecord internals are not modelled. `original_build_arel` is the `compile` parameter of `BuildArel`; it supplies the join nodes, and the query's order nodes come from the relation's order values. `merge` adds the timestamp scope as an opaque clause. `readonly!` is a flag on the shared values hash, and whether the relation was loaded is a flag on the relation.
- `Journal.at_timestamp` is kept as an opaque scope value. The choice of the journal current at the timestamp happens there and is not modelled, so no version tie-break is claimed.
- `Acts::Journalized::JournableDiffer.changes` is the `differ` parameter of `GetChanges`. `model.column_names_missing_in_journal` is a field of the model record.
- `Rails.logger.warn` in `pluck` is a side effect only and is left out.
- `modify_joins` walks every core of the compiled query. The model keeps the join sources of all cores, concatenated in order.
- An ON condition is modelled as a binary node with a left and a right operand. Other ON expressions are out of scope.
- Table names are identifiers (lower-case letters, digits, `_`). Because the source interpolates them unescaped into regular expressions, only then does a pattern match itself literally.
- Tables are compared by name alone. Table aliases, which `Arel::Table#==` also compares, are not modelled.
- Symbol and string column names (`:id` and `'id'`) are both modelled as strings.
- IncludeProjects: the includes are modelled as the names of symbol includes. `include?(:project)` matches only the symbol, so `includes("project")` and a hash include such as `includes(project: :x)` add no projects join in the source; these forms are not modelled.
- Ruby hash iteration order is not modelled. Results are Dafny maps, and where order matters the source's merge order is kept: later keys win.
- Association values are strings, never `nil`. The `present?` test is modelled as "holds a character outside Ruby's `[[:space:]]` class".
- HistoricQuery.OrderAgreesWithWhereRule: ordering by `created_at` or `updated_at` on the live table moves the attribute to the journal table (lines 292-296), while the where rule reads these columns as `journables.created_at` and `journals.updated_at`. The model follows the code; the lemma states where the two disagree.
- SecondPass: proved only for trees without raw SQL strings. Whether the string pass changes a string it already rewrote is not proved.
- SubstitutePredicate: a grouping is modelled as a node with two sides. The source reads `expr.left` and `expr.right`, so an `And` of three or more children has only its first two rewritten, and a grouping around a literal or another grouping raises `NoMethodError`. These shapes are not modelled.
- RewriteOrder: inside a direction, any expression other than an attribute is modelled as a literal. Both raise `NoMethodError` for `relation`.
- BuildArel: ActiveRecord's `build_order` drops blank order values before the query is built; this is not modelled. The source shares the structured order nodes between the query and the relation, while Arel wraps SQL orders in new literals. The model writes the rewritten structured clauses back into the relation's order values and leaves its SQL orders as they were.
- Pluck: ActiveRecord's own `pluck` is modelled only as far as it builds a query on a copy. `arel_columns` is taken to give the column names as SQL. The raw-SQL guard, the `loaded?` and `has_include?` paths and `where_clause.contradiction?` are not modelled. The second build's structured order nodes are the relation's own in the source. It leaves them as they are, because they are off the live table already (`OrderRewriteSettles`); the model edits only the copy's.
