/**
 * `Journable::HistoricActiveRecordRelation` as an object: the relation whose instance
 * variables it copies, the compiled query whose order and join nodes it edits in
 * place, and the `build_arel` pipeline with its memo.
 */
module HistoricRelation {
  import opened Wrappers
  import opened Arel
  import opened HistoricRules
  import opened HistoricQuery
  import opened Passes

  /**
   * A relation's `@values` hash. It is one object: a relation that copies another's
   * instance variables shares it, and so sees every change made through the other.
   */
  class ValuesHash {
    /** The predicates of the where clause, which the rewriter edits node by node. */
    const wherePredicates: array<Predicate>
    var joins: seq<string>
    var select: seq<SelectValue>
    var includes: seq<string>
    var eagerLoad: seq<string>
    var preload: seq<string>
    var order: seq<OrderClause>
    var readonly: bool

    constructor (where: seq<Predicate>, values: RelationValues)
      ensures wherePredicates[..] == where && fresh(wherePredicates)
      ensures Snapshot() == values.(where := where, scopes := [])
      ensures !readonly
    {
      wherePredicates := new Predicate[|where|](i requires 0 <= i < |where| => where[i]);
      joins, select, includes := values.joins, values.select, values.includes;
      eagerLoad, preload, order := values.eagerLoad, values.preload, values.order;
      readonly := false;
      new;
      assert wherePredicates[..] == where;
    }

    /**
     * `@values.dup`, as a relation's `clone` makes it: a new hash whose entries are the
     * old one's, so the where clause object is shared.
     */
    constructor Dup(other: ValuesHash)
      ensures wherePredicates == other.wherePredicates
      ensures Snapshot() == other.Snapshot() && readonly == other.readonly
    {
      wherePredicates := other.wherePredicates;
      joins, select, includes := other.joins, other.select, other.includes;
      eagerLoad, preload, order := other.eagerLoad, other.preload, other.order;
      readonly := other.readonly;
    }

    /** The values as a value, as the pure rewrite steps read them. */
    function Snapshot(): RelationValues
      reads this, wherePredicates
    {
      RelationValues(wherePredicates[..], joins, select, includes, eagerLoad, preload, order, [])
    }
  }

  /** What `original_build_arel` makes of a relation: the parts the rewriter edits afterwards. */
  datatype CompiledQuery = CompiledQuery(orders: seq<OrderClause>, joinSources: seq<JoinSource>)

  /**
   * The compiled query: the `@orders` of its AST and the join nodes of its cores, the
   * latter laid end to end.
   */
  class SelectManager {
    const orders: array<OrderClause>
    const joinSources: array<JoinSource>

    constructor (q: CompiledQuery)
      ensures orders[..] == q.orders && joinSources[..] == q.joinSources
      ensures fresh(orders) && fresh(joinSources)
    {
      orders := new OrderClause[|q.orders|](i requires 0 <= i < |q.orders| => q.orders[i]);
      joinSources := new JoinSource[|q.joinSources|](i requires 0 <= i < |q.joinSources| => q.joinSources[i]);
      new;
      assert orders[..] == q.orders && joinSources[..] == q.joinSources;
    }

    /**
     * `modify_order_clauses`: each clause is rewritten in place, in order; a clause that
     * raises stops the loop and leaves itself and the clauses after it as they were.
     */
    method ModifyOrderClauses(m: Model) returns (raised: Option<RewriteError>)
      modifies orders
      ensures Pass(orders[..], raised) == RewriteOrders(m, old(orders[..]))
    {
      ghost var before := orders[..];
      var i := 0;
      raised := None;
      while i < orders.Length
        invariant 0 <= i <= orders.Length
        invariant forall k :: 0 <= k < i ==> !RaisesOnOrder(before[k]) && orders[k] == RewriteOrder(m, before[k]).item
        invariant forall k :: i <= k < orders.Length ==> orders[k] == before[k]
      {
        var r := RewriteOrder(m, orders[i]);
        if r.raised.Some? {
          raised := r.raised;
          break;
        }
        orders[i] := r.item;
        i := i + 1;
      }
      RewriteOrdersUpTo(m, before, i);
      assert orders[..] == RewriteOrders(m, before).items;
    }

    /**
     * `modify_joins`: every string join goes through the string pass and every ON
     * condition loses its journal-table `id`; nothing else changes.
     */
    method ModifyJoins(m: Model)
      modifies joinSources
      ensures joinSources[..] == RewriteJoins(m, old(joinSources[..]))
    {
      var i := 0;
      while i < joinSources.Length
        invariant 0 <= i <= joinSources.Length
        invariant forall k :: 0 <= k < i ==> joinSources[k] == RewriteJoin(m, old(joinSources[k]))
        invariant forall k :: i <= k < joinSources.Length ==> joinSources[k] == old(joinSources[k])
      {
        joinSources[i] := RewriteJoin(m, joinSources[i]);
        i := i + 1;
      }
    }
  }

  /**
   * `original_build_arel`, which the model does not look into: the join nodes of the
   * query it compiles from a relation reading from the given table. Its order nodes are
   * the relation's own order values, which `build_order` hands over as they are.
   */
  type Compiler = (string, RelationValues) -> seq<JoinSource>

  /**
   * The pieces of `build_arel` that survive it: the edited where clause, joins and
   * order values, and the query or the raise.
   */
  datatype BuildOutcome = BuildOutcome(where: seq<Predicate>, joins: seq<string>, order: seq<OrderClause>,
                                       query: Result<CompiledQuery, RewriteError>)

  /**
   * `build_arel` on a relation with the given values. The where clause and the joins are
   * edited on the relation itself, and the order nodes the query shares with its order
   * values are edited in place, so all of them stay edited even when a later step raises.
   */
  function BuildArelOutcome(m: Model, timestamp: string, vals: RelationValues, compile: Compiler): BuildOutcome
  {
    var w := SubstituteAll(m, vals.where);
    if w.raised.Some? then BuildOutcome(w.items, vals.joins, vals.order, Failure(w.raised.value))
    else CompileOutcome(m, timestamp, vals.(where := w.items, joins := [JournalsJoinStatement(m)] + vals.joins), compile)
  }

  /**
   * The relation's order values once the query's order nodes were edited: `build_order`
   * hands over the structured order nodes themselves, so their edits show in the
   * relation, but Arel wraps every SQL string in a new literal, so the relation keeps
   * its SQL orders as they were.
   */
  function SharedOrderValues(own: seq<OrderClause>, edited: seq<OrderClause>): (r: seq<OrderClause>)
    requires |edited| == |own|
    ensures |r| == |own|
    ensures forall i :: 0 <= i < |own| ==> r[i] == if own[i].OrderSql? then own[i] else edited[i]
  {
    seq(|own|, i requires 0 <= i < |own| => if own[i].OrderSql? then own[i] else edited[i])
  }

  /**
   * The part of `build_arel` after the where clause was rewritten and the journals join
   * put first: the relation-level steps, `original_build_arel`, and the loops over the
   * order nodes and the join nodes.
   */
  function CompileOutcome(m: Model, timestamp: string, vals: RelationValues, compile: Compiler): BuildOutcome
  {
    var ord := RewriteOrders(m, vals.order);
    var order := SharedOrderValues(vals.order, ord.items);
    if ord.raised.Some? then BuildOutcome(vals.where, vals.joins, order, Failure(ord.raised.value))
    else
      var joinSources := compile(m.journalTableName, PrepareRelation(m, timestamp, vals));
      BuildOutcome(vals.where, vals.joins, order, Success(CompiledQuery(ord.items, RewriteJoins(m, joinSources))))
  }

  /** A relation's values once `build_arel` has run on them. */
  function AfterBuild(vals: RelationValues, out: BuildOutcome): RelationValues
  {
    vals.(where := out.where, joins := out.joins, order := out.order)
  }

  /**
   * `build_arel` raises exactly when a where predicate cannot be translated or, failing
   * that, an order value is one the order loop cannot handle; when it does not, every
   * predicate and every order value is rewritten by its own rule.
   */
  lemma BuildArelRaisesIff(m: Model, timestamp: string, vals: RelationValues, compile: Compiler)
    ensures var out := BuildArelOutcome(m, timestamp, vals, compile);
      var translatable := forall i :: 0 <= i < |vals.where| ==> Translatable(m, vals.where[i]);
      && (!translatable ==> out.query.Failure? && out.joins == vals.joins && out.order == vals.order)
      && (translatable ==>
            && (forall i :: 0 <= i < |vals.where| ==> out.where[i] == SubstitutePredicate(m, vals.where[i]).item)
            && out.joins == [JournalsJoinStatement(m)] + vals.joins
            && (out.query.Success? <==> forall i :: 0 <= i < |vals.order| ==> !RaisesOnOrder(vals.order[i]))
            && |out.order| == |vals.order|
            && (forall i :: 0 <= i < |vals.order| && vals.order[i].OrderSql? ==> out.order[i] == vals.order[i])
            && (out.query.Success? ==>
                  && |out.query.value.orders| == |vals.order|
                  && forall i :: 0 <= i < |vals.order| ==>
                       && out.query.value.orders[i] == RewriteOrder(m, vals.order[i]).item
                       && (!vals.order[i].OrderSql? ==> out.order[i] == out.query.value.orders[i])))
  {
    SubstituteAllRaisesIffUntranslatable(m, vals.where);
    RewriteOrdersRaisesIffUnhandled(m, vals.order);
  }

  /** The relation `build_arel` compiles has the journals join first. */
  lemma BuildArelJournalsJoinFirst(m: Model, timestamp: string, vals: RelationValues, compile: Compiler)
    ensures var out := BuildArelOutcome(m, timestamp, vals, compile);
      out.query.Success? ==>
        var rel := PrepareRelation(m, timestamp, vals.(where := out.where, joins := out.joins));
        |rel.joins| > 0 && rel.joins[0] == JournalsJoinStatement(m)
  {
    var out := BuildArelOutcome(m, timestamp, vals, compile);
    if out.query.Success? {
      var rel := vals.(where := out.where, joins := out.joins);
      assert rel.joins == [JournalsJoinStatement(m)] + vals.joins;
      var merged := MergeTimestampCondition(m, timestamp, rel);
      var joined := AddJournablesJoin(m, merged);
      assert joined.joins[0] == JournalsJoinStatement(m);
      assert AddProjectsJoin(joined).joins[0] == JournalsJoinStatement(m);
    }
  }

  /** The select list `pluck` gives the copy it builds: the mapped column names as SQL. */
  function PluckedSelect(plucked: seq<string>): (r: seq<SelectValue>)
    ensures |r| == |plucked| && forall i :: 0 <= i < |r| ==> r[i] == SelectSql(plucked[i])
  {
    seq(|plucked|, i requires 0 <= i < |plucked| => SelectSql(plucked[i]))
  }

  /**
   * `pluck` once the column names are mapped: the relation's own query is built unless
   * it is kept already, and then ActiveRecord's `pluck` builds a query once more, on a
   * copy whose values are the relation's with the plucked columns as the select list.
   * The copy shares the where clause, so the second build rewrites predicates the first
   * one already rewrote. The outcome is that of the first build if it raised, and of the
   * second otherwise.
   */
  function PluckOutcome(m: Model, timestamp: string, vals: RelationValues, memoised: bool,
                        plucked: seq<string>, compile: Compiler): BuildOutcome
  {
    var first := BuildArelOutcome(m, timestamp, vals, compile);
    if !memoised && first.query.Failure? then first
    else
      var built := if memoised then vals else AfterBuild(vals, first);
      BuildArelOutcome(m, timestamp, built.(select := PluckedSelect(plucked)), compile)
  }

  /**
   * `pluck` on a relation that has not been built yet and whose where clause compares
   * `created_at` on the live or the journal table raises: either the first build raises,
   * or the second finds the literal the first put in place of the attribute.
   */
  lemma PluckRaisesOnCreatedAt(m: Model, timestamp: string, vals: RelationValues, plucked: seq<string>,
                               compile: Compiler, i: int)
    requires ValidModel(m)
    requires 0 <= i < |vals.where| && !HasRaw(vals.where[i]) && ComparesCreatedAt(m, vals.where[i])
    ensures PluckOutcome(m, timestamp, vals, false, plucked, compile).query.Failure?
  {
    var first := BuildArelOutcome(m, timestamp, vals, compile);
    if first.query.Success? {
      SubstituteAllRaisesIffUntranslatable(m, vals.where);
      SecondPass(m, vals.where[i]);
      var again := AfterBuild(vals, first).(select := PluckedSelect(plucked));
      assert again.where[i] == SubstitutePredicate(m, vals.where[i]).item;
      SubstituteAllRaisesIffUntranslatable(m, again.where);
    }
  }

  /** The object handed to the constructor: an ActiveRecord relation, or anything else. */
  datatype Source = FromRelation(relation: ActiveRecordRelation) | OtherObject(className: string)

  /** An ActiveRecord relation: the instance variables the rewriter reads, copies or sets. */
  class ActiveRecordRelation {
    const model: Model
    var table: string
    const values: ValuesHash
    var arel: Option<SelectManager>
    /** Whether its records were loaded already. */
    var loaded: bool

    constructor (model: Model, values: ValuesHash)
      ensures this.model == model && this.values == values
      ensures table == model.tableName && arel.None? && !loaded
    {
      this.model, this.values := model, values;
      table := model.tableName;
      arel := None;
      loaded := false;
    }
  }

  class HistoricActiveRecordRelation {
    const model: Model
    var timestamp: string
    var table: string
    const values: ValuesHash
    var arel: Option<SelectManager>

    /** The body of `initialize` for a relation that is still mutable. */
    constructor Copy(relation: ActiveRecordRelation, timestamp: string)
      requires relation.arel.None? && !relation.loaded
      modifies relation.values
      ensures model == relation.model && values == relation.values && arel.None?
      ensures this.timestamp == timestamp && table == model.journalTableName
      ensures values.readonly
      ensures unchanged(values.wherePredicates)
      ensures values.Snapshot() == old(relation.values.Snapshot())
    {
      model, values, arel := relation.model, relation.values, relation.arel;
      this.timestamp := timestamp;
      table := relation.model.journalTableName;
      new;
      values.readonly := true;
    }

    /**
     * `spawn`, which is `clone` here: the values hash is duplicated, so the where clause
     * stays shared, and the compiled query is dropped.
     */
    constructor Spawn(source: HistoricActiveRecordRelation)
      ensures model == source.model && timestamp == source.timestamp && table == source.table
      ensures fresh(values) && values.wherePredicates == source.values.wherePredicates
      ensures values.Snapshot() == source.values.Snapshot() && values.readonly == source.values.readonly
      ensures arel.None?
    {
      model, timestamp, table := source.model, source.timestamp, source.table;
      values := new ValuesHash.Dup(source.values);
      arel := None;
    }

    /**
     * `initialize`: anything but a relation raises `ArgumentError`; `readonly!` raises
     * `ImmutableRelation` on a relation whose query was built already or whose records
     * were loaded, before it changes anything. Otherwise the instance variables are copied, so the two share
     * their values hash, which is made readonly, and the new relation reads from the
     * journal table.
     */
    static method New(source: Source, timestamp: string) returns (r: Result<HistoricActiveRecordRelation, RewriteError>)
      modifies if source.FromRelation? then {source.relation.values} else {}
      ensures source.OtherObject? ==> r == Failure(ArgumentError("Expected ActiveRecord::Relation"))
      ensures source.FromRelation? && (source.relation.arel.Some? || source.relation.loaded) ==>
        r == Failure(ImmutableRelation) && unchanged(source.relation.values)
      ensures r.Success? <==> source.FromRelation? && source.relation.arel.None? && !source.relation.loaded
      ensures r.Success? ==> var h := r.value;
        && fresh(h)
        && h.model == source.relation.model && h.values == source.relation.values
        && h.arel.None?
        && h.timestamp == timestamp && h.table == h.model.journalTableName
        && h.values.readonly
        && h.values.Snapshot() == old(source.relation.values.Snapshot())
    {
      if source.OtherObject? {
        return Failure(ArgumentError("Expected ActiveRecord::Relation"));
      }
      if source.relation.arel.Some? || source.relation.loaded {
        return Failure(ImmutableRelation);
      }
      var h := new HistoricActiveRecordRelation.Copy(source.relation, timestamp);
      return Success(h);
    }

    /** `eager_loading?`: never, so projects have to be joined by hand. */
    function EagerLoading(): (r: bool)
      ensures !r
    {
      false
    }

    /**
     * `substitute_database_table_in_where_clause`: each predicate is rewritten in place,
     * in order, up to the first that raises.
     */
    method SubstituteInWhereClause() returns (raised: Option<RewriteError>)
      modifies values.wherePredicates
      ensures Pass(values.wherePredicates[..], raised) == SubstituteAll(model, old(values.wherePredicates[..]))
    {
      var a := values.wherePredicates;
      ghost var before := a[..];
      var i := 0;
      raised := None;
      while i < a.Length
        invariant 0 <= i <= a.Length
        invariant forall k :: 0 <= k < i ==> Translatable(model, before[k]) && a[k] == SubstitutePredicate(model, before[k]).item
        invariant forall k :: i <= k < a.Length ==> a[k] == before[k]
      {
        var r := SubstitutePredicate(model, a[i]);
        a[i] := r.item;
        if r.raised.Some? {
          raised := r.raised;
          break;
        }
        i := i + 1;
      }
      SubstituteAllUpTo(model, before, i);
      assert a[..] == SubstituteAll(model, before).items;
    }

    /**
     * `build_arel`: the relation is switched to the journal table, its where clause is
     * edited in place and the journals join put before its joins; then the query is
     * compiled and edited.
     */
    method BuildArel(compile: Compiler) returns (r: Result<SelectManager, RewriteError>)
      modifies this, values, values.wherePredicates
      ensures table == model.journalTableName
      ensures timestamp == old(timestamp) && arel == old(arel)
      ensures var out := BuildArelOutcome(model, timestamp, old(values.Snapshot()), compile);
        && values.Snapshot() == AfterBuild(old(values.Snapshot()), out)
        && (out.query.Failure? <==> r.Failure?)
        && (r.Failure? ==> r.error == out.query.error)
        && (r.Success? ==>
              && fresh(r.value.orders) && fresh(r.value.joinSources)
              && r.value.orders[..] == out.query.value.orders
              && r.value.joinSources[..] == out.query.value.joinSources)
      ensures values.readonly == old(values.readonly)
    {
      ghost var vals := values.Snapshot();
      table := model.journalTableName;
      var raised := SubstituteInWhereClause();
      if raised.Some? {
        return Failure(raised.value);
      }
      values.joins := [JournalsJoinStatement(model)] + values.joins;
      assert values.Snapshot() == vals.(where := values.wherePredicates[..], joins := values.joins);
      r := CompileQuery(compile);
    }

    /**
     * The end of `build_arel`: `compile` (`original_build_arel`) turns the prepared
     * relation into a query whose order clauses, shared with the relation's order
     * values, and join nodes are edited in place.
     */
    method CompileQuery(compile: Compiler) returns (r: Result<SelectManager, RewriteError>)
      modifies values
      ensures var out := CompileOutcome(model, timestamp, old(values.Snapshot()), compile);
        && values.Snapshot() == AfterBuild(old(values.Snapshot()), out)
        && (out.query.Failure? <==> r.Failure?)
        && (r.Failure? ==> r.error == out.query.error)
        && (r.Success? ==>
              && fresh(r.value.orders) && fresh(r.value.joinSources)
              && r.value.orders[..] == out.query.value.orders
              && r.value.joinSources[..] == out.query.value.joinSources)
      ensures values.readonly == old(values.readonly)
    {
      var rel := PrepareRelation(model, timestamp, values.Snapshot());
      var manager := new SelectManager(CompiledQuery(values.order, compile(model.journalTableName, rel)));
      var raised := manager.ModifyOrderClauses(model);
      values.order := SharedOrderValues(values.order, manager.orders[..]);
      if raised.Some? {
        return Failure(raised.value);
      }
      manager.ModifyJoins(model);
      return Success(manager);
    }

    /**
     * `arel`: the compiled query is built once and kept; a build that raises keeps
     * nothing, so the next call builds again.
     */
    method Arel(compile: Compiler) returns (r: Result<SelectManager, RewriteError>)
      modifies this, values, values.wherePredicates
      ensures timestamp == old(timestamp) && values.readonly == old(values.readonly)
      ensures old(arel).Some? ==> r == Success(old(arel).value) && arel == old(arel)
      ensures old(arel).Some? ==> unchanged(values, values.wherePredicates) && table == old(table)
      ensures old(arel).None? ==> var out := BuildArelOutcome(model, timestamp, old(values.Snapshot()), compile);
        && values.Snapshot() == AfterBuild(old(values.Snapshot()), out)
        && table == model.journalTableName
        && (out.query.Failure? <==> r.Failure?) && (r.Failure? ==> r.error == out.query.error && arel.None?)
        && (r.Success? ==>
              && arel == Some(r.value)
              && r.value.orders[..] == out.query.value.orders
              && r.value.joinSources[..] == out.query.value.joinSources)
    {
      if arel.Some? {
        return Success(arel.value);
      }
      r := BuildArel(compile);
      if r.Success? {
        arel := Some(r.value);
      }
    }

    /**
     * ActiveRecord's own `pluck`, as far as the rewriter is concerned: a copy of the
     * relation that selects the given columns builds its query, rewriting the where
     * clause it shares with this relation.
     */
    method PluckFromCopy(plucked: seq<string>, compile: Compiler) returns (raised: Option<RewriteError>)
      modifies values.wherePredicates
      ensures var out := BuildArelOutcome(model, timestamp, old(values.Snapshot()).(select := PluckedSelect(plucked)), compile);
        && values.wherePredicates[..] == out.where
        && raised == (if out.query.Failure? then Some(out.query.error) else None)
    {
      var copy := new HistoricActiveRecordRelation.Spawn(this);
      copy.values.select := PluckedSelect(plucked);
      assert copy.values.Snapshot() == old(values.Snapshot()).(select := PluckedSelect(plucked));
      var r := copy.Arel(compile);
      raised := if r.Success? then None else Some(r.error);
    }

    /** The `map!` of `pluck`: each column name is replaced by the column it reads. */
    method MapColumnNames(columns: array<string>)
      modifies columns
      ensures forall i :: 0 <= i < columns.Length ==> columns[i] == PluckColumn(model, old(columns[i]))
    {
      var i := 0;
      while i < columns.Length
        invariant 0 <= i <= columns.Length
        invariant forall k :: 0 <= k < i ==> columns[k] == PluckColumn(model, old(columns[k]))
        invariant forall k :: i <= k < columns.Length ==> columns[k] == old(columns[k])
      {
        columns[i] := PluckColumn(model, columns[i]);
        i := i + 1;
      }
    }

    /** The splat array of `pluck`'s arguments, mapped in place by its `map!`. */
    method PluckedColumns(columns: seq<string>) returns (plucked: seq<string>)
      ensures |plucked| == |columns| && forall i :: 0 <= i < |columns| ==> plucked[i] == PluckColumn(model, columns[i])
    {
      var names := new string[|columns|](i requires 0 <= i < |columns| => columns[i]);
      MapColumnNames(names);
      plucked := names[..];
    }

    /**
     * `pluck`: the column names, collected into an array of its own, are mapped in place
     * and the relation's query is built (or taken from the memo); then ActiveRecord's
     * `pluck` builds the query of a copy selecting the mapped columns, which are returned
     * as `plucked`. What the query returns is not modelled.
     */
    method Pluck(columns: seq<string>, compile: Compiler) returns (raised: Option<RewriteError>, plucked: seq<string>)
      modifies this, values, values.wherePredicates
      ensures |plucked| == |columns| && forall i :: 0 <= i < |columns| ==> plucked[i] == PluckColumn(model, columns[i])
      ensures timestamp == old(timestamp)
      ensures var first := BuildArelOutcome(model, timestamp, old(values.Snapshot()), compile);
        var own := if old(arel).Some? then old(values.Snapshot()) else AfterBuild(old(values.Snapshot()), first);
        var out := PluckOutcome(model, timestamp, old(values.Snapshot()), old(arel).Some?, plucked, compile);
        && values.Snapshot() == own.(where := out.where)
        && raised == (if out.query.Failure? then Some(out.query.error) else None)
        && (old(arel).None? ==> (arel.Some? <==> first.query.Success?))
      ensures old(arel).Some? ==> arel == old(arel)
    {
      ghost var vals, memo := values.Snapshot(), arel;
      plucked := PluckedColumns(columns);
      var r := Arel(compile);
      ghost var first := BuildArelOutcome(model, timestamp, vals, compile);
      ghost var own := if memo.Some? then vals else AfterBuild(vals, first);
      if r.Failure? {
        return Some(r.error), plucked;
      }
      assert values.Snapshot() == own;
      raised := PluckFromCopy(plucked, compile);
      assert PluckOutcome(model, timestamp, vals, memo.Some?, plucked, compile)
          == BuildArelOutcome(model, timestamp, own.(select := PluckedSelect(plucked)), compile);
    }
  }
}
