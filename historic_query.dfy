/**
 * The rest of the historic rewrite: the `pluck` column mapping, the projection, the
 * joins the rewriter adds, and the rules for the order clauses and the join nodes of
 * the compiled query.
 */
module HistoricQuery {
  import opened Wrappers
  import opened Text
  import opened Arel
  import opened HistoricRules
  import opened Passes

  // ---------------------------------------------------------------------------
  // pluck
  // ---------------------------------------------------------------------------

  /** The column `pluck` reads instead of `column`. */
  function PluckColumn(m: Model, column: string): string
  {
    if column == "id" then "journals.journable_id"
    else if column == "created_at" then "journables.created_at"
    else if column == "updated_at" then "journals.updated_at"
    else if column in m.columnNamesMissingInJournal then "null as " + column
    else column
  }

  /** `id`, `created_at` and `updated_at`, the columns read from outside the journal table. */
  predicate IsTimestampOrId(column: string)
  {
    column == "id" || column == "created_at" || column == "updated_at"
  }

  /**
   * For `id`, `created_at` and `updated_at`, `pluck` reads the column that the string
   * pass makes of `<table>.<column>`; a column the journal table lacks is read as
   * `null`; every other column is read as it is.
   */
  lemma PluckAgreesWithStringPass(m: Model, column: string)
    requires ValidModel(m)
    ensures IsTimestampOrId(column) ==>
      PluckColumn(m, column) == GsubTableNames(m, m.tableName + "." + column)
    ensures !IsTimestampOrId(column) ==>
      (PluckColumn(m, column) == column <==> column !in m.columnNamesMissingInJournal)
    ensures !IsTimestampOrId(column) && column in m.columnNamesMissingInJournal ==>
      PluckColumn(m, column) == "null as " + column
  {
    if IsTimestampOrId(column) {
      GsubBareColumn(m, column);
      if column == "id" {
        assert !StartsWith(column, "updated_at") && !StartsWith(column, "created_at");
        assert column[..2] == "id" && column[2..] == "";
      } else if column == "created_at" {
        assert column[..10][0] != "updated_at"[0];
        assert column[..10] == "created_at" && column[10..] == "";
      } else {
        assert column[..10] == "updated_at" && column[10..] == "";
      }
    }
  }

  // ---------------------------------------------------------------------------
  // Projection
  // ---------------------------------------------------------------------------

  /**
   * `column_select_definitions`: every column of the journal table, the three columns
   * from outside it read as `pluck` reads them, the timestamp, and `null` for each
   * column the journal table lacks.
   */
  function ColumnSelectDefinitions(m: Model, timestamp: string): (defs: seq<string>)
    ensures |defs| == 5 + |m.columnNamesMissingInJournal|
    ensures defs[0] == m.journalTableName + ".*"
    ensures defs[1] == PluckColumn(m, "id") + " as id"
    ensures defs[2] == PluckColumn(m, "created_at") + " as created_at"
    ensures defs[3] == PluckColumn(m, "updated_at") + " as updated_at"
    ensures defs[4] == "'" + timestamp + "' as timestamp"
    ensures forall i :: 0 <= i < |m.columnNamesMissingInJournal| ==>
      defs[5 + i] == "null as " + m.columnNamesMissingInJournal[i]
  {
    var missing := m.columnNamesMissingInJournal;
    [ m.journalTableName + ".*",
      "journals.journable_id as id",
      "journables.created_at as created_at",
      "journals.updated_at as updated_at",
      "'" + timestamp + "' as timestamp" ]
    + seq(|missing|, i requires 0 <= i < |missing| => "null as " + missing[i])
  }

  /**
   * Whatever `pluck` reads is also what the default projection selects: the three
   * columns from outside the journal table under their own names, and `null` for
   * every column the journal table lacks.
   */
  lemma PluckMatchesProjection(m: Model, timestamp: string, column: string)
    ensures IsTimestampOrId(column) ==>
      PluckColumn(m, column) + " as " + column in ColumnSelectDefinitions(m, timestamp)
    ensures !IsTimestampOrId(column) && column in m.columnNamesMissingInJournal ==>
      PluckColumn(m, column) in ColumnSelectDefinitions(m, timestamp)
  {
    var defs := ColumnSelectDefinitions(m, timestamp);
    if column == "id" {
      assert defs[1] == PluckColumn(m, column) + " as " + column;
    } else if column == "created_at" {
      assert defs[2] == PluckColumn(m, column) + " as " + column;
    } else if column == "updated_at" {
      assert defs[3] == PluckColumn(m, column) + " as " + column;
    } else if column in m.columnNamesMissingInJournal {
      var i :| 0 <= i < |m.columnNamesMissingInJournal| && m.columnNamesMissingInJournal[i] == column;
      assert defs[5 + i] == PluckColumn(m, column);
    }
  }

  /** The select list is a single `id` attribute of the journal table (a sub-query's). */
  predicate SelectsJournalId(m: Model, select: seq<SelectValue>)
  {
    |select| == 1 && select[0].SelectAttribute?
    && select[0].attribute.relation == m.journalTableName && select[0].attribute.name == "id"
  }

  /** `select_columns_from_the_appropriate_tables`, on the select list. */
  function SelectColumns(m: Model, timestamp: string, select: seq<SelectValue>): seq<SelectValue>
  {
    if |select| == 0 then [SelectSql(Join(ColumnSelectDefinitions(m, timestamp), ", "))]
    else if SelectsJournalId(m, select) then [SelectSql("journals.journable_id as id")]
    else select
  }

  /**
   * The three ways of the projection: an empty select list becomes the full set of
   * definitions, a lone journal `id` becomes `journals.journable_id as id`, and every
   * other list is kept. The result is never empty and holds no attribute of the
   * journal table named `id` alone, so applying the rule a second time changes nothing.
   */
  lemma SelectColumnsThreeWays(m: Model, timestamp: string, select: seq<SelectValue>)
    ensures var r := SelectColumns(m, timestamp, select);
      && (|select| == 0 ==> r == [SelectSql(Join(ColumnSelectDefinitions(m, timestamp), ", "))])
      && (SelectsJournalId(m, select) ==> r == [SelectSql("journals.journable_id as id")])
      && (|select| > 0 && !SelectsJournalId(m, select) ==> r == select)
      && |r| > 0 && !SelectsJournalId(m, r)
      && SelectColumns(m, timestamp, r) == r
  {
  }

  // ---------------------------------------------------------------------------
  // Joins added to the relation
  // ---------------------------------------------------------------------------

  /** `journals_join_statement`: the journals whose data row is the journal table's row. */
  function JournalsJoinStatement(m: Model): string
  {
    "INNER JOIN \"journals\" ON \"journals\".\"data_type\" = '" + m.journalClassName + "' "
    + "AND \"journals\".\"data_id\" = \"" + m.journalTableName + "\".\"id\""
  }

  /** The columns the `journables` sub-query selects from the live table. */
  function JournablesColumns(includeProjects: bool): (r: seq<string>)
    ensures "id" in r && "created_at" in r
    ensures "project_id" in r <==> includeProjects
  {
    ["id", "created_at"] + if includeProjects then ["project_id"] else []
  }

  /** The join of the live table under the alias `journables`. */
  function JournablesJoin(m: Model, includeProjects: bool): string
  {
    "INNER JOIN (SELECT " + Join(JournablesColumns(includeProjects), ", ")
    + " FROM \"" + m.tableName + "\") AS journables "
    + "ON \"journables\".\"id\" = \"journals\".\"journable_id\""
  }

  const ProjectsJoin := "LEFT OUTER JOIN \"projects\" ON \"projects\".\"id\" = \"journables\".\"project_id\""

  /** The timestamp condition merged into the relation; what it selects is not modelled. */
  datatype TimestampScope = TimestampScope(journableType: string, timestamp: string)

  /** The values of a relation that the rewriter reads or sets. */
  datatype RelationValues = RelationValues(
    where: seq<Predicate>,
    joins: seq<string>,
    select: seq<SelectValue>,
    includes: seq<string>,
    eagerLoad: seq<string>,
    preload: seq<string>,
    order: seq<OrderClause>,
    scopes: seq<TimestampScope>)

  /** `include_projects?`. */
  predicate IncludeProjects(rel: RelationValues)
  {
    "project" in rel.includes
  }

  /** No element occurs twice. */
  predicate Distinct(xs: seq<string>)
  {
    forall i, j :: 0 <= i < j < |xs| ==> xs[i] != xs[j]
  }

  /**
   * Ruby's `Array#uniq`: the elements of `xs` in the order of their first occurrences.
   */
  function Dedup(xs: seq<string>): (r: seq<string>)
    ensures forall x :: x in r <==> x in xs
    ensures Distinct(r)
    ensures |xs| > 0 ==> |r| > 0 && r[0] == xs[0]
    decreases |xs|
  {
    if |xs| == 0 then []
    else
      var d := Dedup(xs[..|xs| - 1]);
      assert forall x :: x in xs <==> x in xs[..|xs| - 1] || x == xs[|xs| - 1];
      if xs[|xs| - 1] in d then d else d + [xs[|xs| - 1]]
  }

  /** A list without repeats is its own `uniq`. */
  lemma {:induction false} DedupOfDistinct(xs: seq<string>)
    requires Distinct(xs)
    ensures Dedup(xs) == xs
    decreases |xs|
  {
    if |xs| > 0 {
      var init := xs[..|xs| - 1];
      DedupOfDistinct(init);
      assert xs[|xs| - 1] !in init;
      assert init + [xs[|xs| - 1]] == xs;
    }
  }

  /**
   * Appending elements never moves or drops what `uniq` kept: the first occurrences of
   * `xs` stay first, in their order.
   */
  lemma {:induction false} DedupKeepsFirstOccurrences(xs: seq<string>, ys: seq<string>)
    ensures |Dedup(xs)| <= |Dedup(xs + ys)| && Dedup(xs + ys)[..|Dedup(xs)|] == Dedup(xs)
    decreases |ys|
  {
    if |ys| == 0 {
      assert xs + ys == xs;
    } else {
      var ys' := ys[..|ys| - 1];
      DedupKeepsFirstOccurrences(xs, ys');
      assert (xs + ys)[..|xs + ys| - 1] == xs + ys';
      var d := Dedup(xs + ys');
      assert Dedup(xs + ys) == d || Dedup(xs + ys) == d + [ys[|ys| - 1]];
      assert Dedup(xs + ys)[..|d|] == d;
    }
  }

  /** A repeat of the head adds nothing to `uniq`. */
  lemma {:induction false} DedupRepeatedHead(a: string, xs: seq<string>)
    ensures Dedup([a, a] + xs) == Dedup([a] + xs)
    decreases |xs|
  {
    if |xs| == 0 {
      assert [a, a][..1] == [a];
    } else {
      var xs' := xs[..|xs| - 1];
      DedupRepeatedHead(a, xs');
      assert ([a, a] + xs)[..|xs| + 1] == [a, a] + xs';
      assert ([a] + xs)[..|xs|] == [a] + xs';
    }
  }

  /**
   * ActiveRecord's `joins`, `joins_values |= [sql]`: the joins without repeats, in the
   * order they first occur, with `sql` at the end unless it was there already.
   */
  function AddJoin(joins: seq<string>, sql: string): (r: seq<string>)
    ensures forall x :: x in r <==> x in joins || x == sql
    ensures Distinct(r)
    ensures sql !in joins ==> r == Dedup(joins) + [sql]
    ensures sql in joins ==> r == Dedup(joins)
  {
    assert (joins + [sql])[..|joins|] == joins;
    Dedup(joins + [sql])
  }

  /** The `merge` of `Journal.where(journable_type: ...).at_timestamp(timestamp)`. */
  function MergeTimestampCondition(m: Model, timestamp: string, rel: RelationValues): RelationValues
  {
    rel.(scopes := rel.scopes + [TimestampScope(m.name, timestamp)])
  }

  /** `add_join_on_journables_table_with_created_at_column`. */
  function AddJournablesJoin(m: Model, rel: RelationValues): RelationValues
  {
    rel.(joins := AddJoin(rel.joins, JournablesJoin(m, IncludeProjects(rel))))
  }

  /** `add_join_projects_on_journables`. */
  function AddProjectsJoin(rel: RelationValues): RelationValues
  {
    if IncludeProjects(rel) then
      rel.(includes := [], eagerLoad := [], preload := [], joins := AddJoin(rel.joins, ProjectsJoin))
    else rel
  }

  /**
   * The projects join is added, and the includes, eager loads and preloads dropped,
   * exactly when the includes name `project`; the other values are kept.
   */
  lemma ProjectsJoinIffIncluded(rel: RelationValues)
    requires ProjectsJoin !in rel.joins
    ensures var r := AddProjectsJoin(rel);
      && (ProjectsJoin in r.joins <==> IncludeProjects(rel))
      && (IncludeProjects(rel) ==> r.includes == [] && r.eagerLoad == [] && r.preload == [])
      && (!IncludeProjects(rel) ==> r == rel)
      && r.where == rel.where && r.select == rel.select && r.order == rel.order && r.scopes == rel.scopes
      && (IncludeProjects(rel) ==> r.joins == Dedup(rel.joins) + [ProjectsJoin])
  {
  }

  /**
   * The relation values once the relation-level steps of `build_arel` have run on a
   * relation whose joins are `joins`: the journals join first, then the joins already
   * there, then the `journables` join and, if projects are included, the projects join.
   */
  function PrepareRelation(m: Model, timestamp: string, rel: RelationValues): RelationValues
  {
    var merged := MergeTimestampCondition(m, timestamp, rel);
    var joined := AddProjectsJoin(AddJournablesJoin(m, merged));
    joined.(select := SelectColumns(m, timestamp, joined.select))
  }

  /**
   * The join order of the prepared relation: the journals join first, then the other
   * joins the relation held, each once and in the order they first occur, then the two
   * joins on `journables`; the `journables` sub-query selects `project_id` exactly when
   * the projects join is there.
   */
  lemma PreparedJoins(m: Model, timestamp: string, joins: seq<string>, rel: RelationValues)
    requires rel.joins == [JournalsJoinStatement(m)] + joins
    requires JournablesJoin(m, true) !in rel.joins && JournablesJoin(m, false) !in rel.joins
    requires ProjectsJoin !in rel.joins && ProjectsJoin != JournablesJoin(m, IncludeProjects(rel))
    ensures var r := PrepareRelation(m, timestamp, rel);
      && r.joins == Dedup(rel.joins) + [JournablesJoin(m, IncludeProjects(rel))]
                    + (if IncludeProjects(rel) then [ProjectsJoin] else [])
      && r.joins[0] == JournalsJoinStatement(m)
      && Distinct(r.joins)
      && (Distinct(rel.joins) ==> Dedup(rel.joins) == rel.joins)
      && r.scopes == rel.scopes + [TimestampScope(m.name, timestamp)]
  {
    var merged := MergeTimestampCondition(m, timestamp, rel);
    var joined := AddJournablesJoin(m, merged);
    JoinsAtTheEnd(rel.joins, JournablesJoin(m, IncludeProjects(rel)), ProjectsJoin, IncludeProjects(rel));
    assert PrepareRelation(m, timestamp, rel).joins == AddProjectsJoin(joined).joins;
    if Distinct(rel.joins) {
      DedupOfDistinct(rel.joins);
    }
  }

  /** Two joins not there yet, added one after the other, end the join list in that order. */
  lemma JoinsAtTheEnd(joins: seq<string>, a: string, b: string, withB: bool)
    requires a !in joins && b !in joins && a != b
    ensures var j1 := AddJoin(joins, a);
      var j2 := if withB then AddJoin(j1, b) else j1;
      && j2 == Dedup(joins) + [a] + (if withB then [b] else [])
      && Distinct(j2)
  {
    var j1 := AddJoin(joins, a);
    assert j1 == Dedup(joins) + [a];
    if withB {
      assert b !in j1;
      DedupOfDistinct(j1);
      assert AddJoin(j1, b) == j1 + [b];
    }
  }

  /**
   * A relation built before holds the journals join already, and building it again puts
   * it first once more; the repeat is dropped by `joins`, so the second build prepares
   * the same relation as the first.
   */
  lemma RebuildPreparesSameRelation(m: Model, timestamp: string, rel: RelationValues)
    requires |rel.joins| > 0 && rel.joins[0] == JournalsJoinStatement(m)
    ensures PrepareRelation(m, timestamp, rel.(joins := [JournalsJoinStatement(m)] + rel.joins))
         == PrepareRelation(m, timestamp, rel)
  {
    var again := rel.(joins := [JournalsJoinStatement(m)] + rel.joins);
    DedupRepeatedHead(JournalsJoinStatement(m), rel.joins[1..]);
    assert again.joins == [JournalsJoinStatement(m), JournalsJoinStatement(m)] + rel.joins[1..];
    assert rel.joins == [JournalsJoinStatement(m)] + rel.joins[1..];
    assert Dedup(again.joins) == Dedup(rel.joins);
    var jj := JournablesJoin(m, IncludeProjects(rel));
    assert AddJoin(again.joins, jj) == AddJoin(rel.joins, jj);
  }

  // ---------------------------------------------------------------------------
  // Order clauses and join nodes of the compiled query
  // ---------------------------------------------------------------------------

  /** Where an order clause on the live table sorts by: there is no rule for the timestamps. */
  function OrderTarget(m: Model, a: Attribute): Attribute
  {
    if a.name == "id" then Attribute(JournalsTable, "journable_id") else Attribute(m.journalTableName, a.name)
  }

  /**
   * The order clauses the loop cannot handle: an expression without a `relation` (a
   * literal, or the ordering a `NullsFirst`/`NullsLast` wraps), or a node without `expr`.
   */
  predicate RaisesOnOrder(o: OrderClause)
  {
    (o.Ordering? && o.expr.SqlLiteral?) || o.NullsOrdering? || o.OtherOrder?
  }

  /** The body of the loop of `modify_order_clauses`, for one clause. */
  function RewriteOrder(m: Model, o: OrderClause): (r: Step<OrderClause, RewriteError>)
    ensures r.raised.Some? <==> RaisesOnOrder(o)
    ensures r.raised.Some? ==> r.item == o
    ensures r.raised.Some? ==> r.raised == Some(NoMethod(if o.OtherOrder? then "expr" else "relation"))
    ensures r.item.OrderSql? <==> o.OrderSql?
    ensures o.OrderSql? ==> r.item == OrderSql(GsubTableNames(m, o.sql))
    ensures o.Ordering? ==> r.item.Ordering? && r.item.direction == o.direction
  {
    match o
    case OrderSql(sql) => Step(OrderSql(GsubTableNames(m, sql)), None)
    case Ordering(d, Attr(a)) =>
      if a.relation == m.tableName then Step(Ordering(d, Attr(OrderTarget(m, a))), None)
      else Step(o, None)
    case Ordering(_, SqlLiteral(_)) => Step(o, Some(NoMethod("relation")))
    case NullsOrdering(_, _) => Step(o, Some(NoMethod("relation")))
    case OtherOrder(_) => Step(o, Some(NoMethod("expr")))
  }

  /**
   * A structured order clause on the live table sorts by the column the where rule
   * reads, except for `created_at` and `updated_at`, which stay on the journal table.
   * The same column written as quoted SQL is sorted by the same column, so the two
   * forms of an order clause agree.
   */
  lemma OrderAgreesWithWhereRule(m: Model, d: Direction, c: string)
    requires ValidModel(m) && Lacks(c, '.') && Lacks(c, '"')
    ensures var a := Attribute(m.tableName, c);
      && RewriteOrder(m, Ordering(d, Attr(a))) == Step(Ordering(d, Attr(OrderTarget(m, a))), None)
      && (Attr(OrderTarget(m, a)) == WhereTarget(m, a) <==> c != "created_at" && c != "updated_at")
      && (c != "created_at" && c != "updated_at" ==>
            RewriteOrder(m, OrderSql(Sql(Attr(a)))).item == OrderSql(Sql(Attr(OrderTarget(m, a)))))
  {
    GsubQuotedColumn(m, c);
  }

  /**
   * A structured order clause rewritten once is not on the live table any more, so
   * rewriting it again, as a second build over the same order nodes does, leaves it.
   */
  lemma OrderRewriteSettles(m: Model, o: OrderClause)
    requires ValidModel(m) && o.Ordering? && !RaisesOnOrder(o)
    ensures RewriteOrder(m, RewriteOrder(m, o).item) == Step(RewriteOrder(m, o).item, None)
  {
    assert m.tableName[0..] == m.tableName;
    assert m.journalTableName != m.tableName && JournalsTable != m.tableName;
  }

  /** An order clause on any other table is left alone. */
  lemma OrderOnOtherTableUntouched(m: Model, d: Direction, a: Attribute)
    requires a.relation != m.tableName
    ensures RewriteOrder(m, Ordering(d, Attr(a))) == Step(Ordering(d, Attr(a)), None)
  {
  }

  /** The step of the loop of `modify_order_clauses`. */
  function OrderStep(m: Model): OrderClause -> Step<OrderClause, RewriteError>
  {
    o => RewriteOrder(m, o)
  }

  /** The order clauses after the loop: rewritten in order up to the first that raises. */
  function RewriteOrders(m: Model, os: seq<OrderClause>): Pass<OrderClause, RewriteError>
  {
    RunPass(OrderStep(m), os)
  }

  /**
   * The loop raises exactly when some clause is one it cannot handle; otherwise every
   * clause is rewritten on its own.
   */
  lemma RewriteOrdersRaisesIffUnhandled(m: Model, os: seq<OrderClause>)
    ensures RewriteOrders(m, os).raised.None? <==> forall i :: 0 <= i < |os| ==> !RaisesOnOrder(os[i])
    ensures RewriteOrders(m, os).raised.None? ==>
      forall i :: 0 <= i < |os| ==> RewriteOrders(m, os).items[i] == RewriteOrder(m, os[i]).item
  {
    RunPassRaisesIff(OrderStep(m), os);
    assert forall i :: 0 <= i < |os| ==> OrderStep(m)(os[i]) == RewriteOrder(m, os[i]);
  }

  /**
   * The order loop, given where it stops: when the first `i` clauses rewrite without a
   * raise and clause `i`, if there is one, cannot be handled, then the clauses before it
   * are rewritten, it and the clauses after it are kept, and the loop raises what
   * clause `i` raised.
   */
  lemma RewriteOrdersUpTo(m: Model, os: seq<OrderClause>, i: nat)
    requires i <= |os|
    requires forall k :: 0 <= k < i ==> !RaisesOnOrder(os[k])
    requires i < |os| ==> RaisesOnOrder(os[i])
    ensures RewriteOrders(m, os).raised == if i < |os| then RewriteOrder(m, os[i]).raised else None
    ensures forall k :: 0 <= k < |os| ==>
      RewriteOrders(m, os).items[k] == if k < i then RewriteOrder(m, os[k]).item else os[k]
  {
    assert forall k :: 0 <= k < |os| ==> OrderStep(m)(os[k]) == RewriteOrder(m, os[k]);
    RunPassUpTo(OrderStep(m), os, i);
  }

  /** The ON-condition rule of `modify_joins`: the journal table's `id` becomes `journals.journable_id`. */
  function RewriteOnOperand(m: Model, o: Operand): (r: Operand)
    ensures r != o <==> o == Attr(Attribute(m.journalTableName, "id"))
    ensures o == Attr(Attribute(m.journalTableName, "id")) ==> r == Attr(Attribute("journals", "journable_id"))
  {
    if o.Attr? && o.attribute.relation == m.journalTableName && o.attribute.name == "id"
    then Attr(Attribute(JournalsTable, "journable_id"))
    else o
  }

  /** The body of the loop of `modify_joins`, for one join node. */
  function RewriteJoin(m: Model, j: JoinSource): (r: JoinSource)
    ensures j.StringJoin? ==> r == StringJoin(GsubTableNames(m, j.sql))
    ensures j.OnJoin? ==> r == OnJoin(j.kind, j.relation, RewriteOnOperand(m, j.onLeft), RewriteOnOperand(m, j.onRight))
    ensures j.OtherJoin? ==> r == j
  {
    match j
    case StringJoin(sql) => StringJoin(GsubTableNames(m, sql))
    case OnJoin(k, rel, l, r) => OnJoin(k, rel, RewriteOnOperand(m, l), RewriteOnOperand(m, r))
    case OtherJoin(_) => j
  }

  /**
   * An ON join is rewritten once and for all: `journals` is not the journal table, so a
   * second pass finds nothing to change; it keeps the joined table and the join kind.
   */
  lemma RewriteOnJoinSettles(m: Model, k: string, rel: string, l: Operand, r: Operand)
    requires ValidModel(m)
    ensures var once := RewriteJoin(m, OnJoin(k, rel, l, r));
      && once.kind == k && once.relation == rel
      && RewriteJoin(m, once) == once
  {
  }

  /** The join nodes after the loop of `modify_joins`, which never raises. */
  function RewriteJoins(m: Model, js: seq<JoinSource>): (r: seq<JoinSource>)
    ensures |r| == |js| && forall i :: 0 <= i < |js| ==> r[i] == RewriteJoin(m, js[i])
  {
    seq(|js|, i requires 0 <= i < |js| => RewriteJoin(m, js[i]))
  }
}
