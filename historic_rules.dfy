/**
 * The rewrite rules of `Journable::HistoricActiveRecordRelation`: how a query against a
 * journalized table (e.g. `work_packages`) is turned into one against its journal table
 * (e.g. `work_package_journals`), joined with `journals` and with the live table under
 * the alias `journables`.
 */
module HistoricRules {
  import opened Wrappers
  import opened Text
  import opened Arel
  import opened Passes

  /** The table of all journals, whose rows point at the journal data rows. */
  const JournalsTable := "journals"

  /** The alias of the live table inside the historic query. */
  const JournablesAlias := "journables"

  /**
   * What the rewriter reads from the journalized model: its class name, its table, its
   * journal class and table, and the columns the journal table lacks.
   */
  datatype Model = Model(
    name: string,
    tableName: Identifier,
    journalClassName: string,
    journalTableName: Identifier,
    columnNamesMissingInJournal: seq<string>)

  /**
   * The table names do not collide with the names the rewriter introduces: the live
   * table does not end the words `journals` or `journables`, and the journal table is
   * not `journals`. Every journalized model of the application satisfies this.
   */
  predicate ValidModel(m: Model)
  {
    !EndsWith(JournalsTable, m.tableName) && !EndsWith(JournablesAlias, m.tableName)
    && m.journalTableName != JournalsTable && !EndsWith(m.journalTableName, m.tableName)
  }

  /** What the rewriter raises. */
  datatype RewriteError =
    | NotImplemented(className: string)  // the class's own NotImplementedError
    | NoMethod(methodName: string)        // Ruby's NoMethodError
    | ArgumentError(message: string)
    | ImmutableRelation                   // ActiveRecord::ImmutableRelation

  // ---------------------------------------------------------------------------
  // Where predicates
  // ---------------------------------------------------------------------------

  /** A comparison's attribute is rewritten when it is on the live or on the journal table. */
  predicate OnJournableTable(m: Model, a: Attribute)
  {
    a.relation == m.tableName || a.relation == m.journalTableName
  }

  /** Where a where-clause column of the live or journal table is read from historically. */
  function WhereTarget(m: Model, a: Attribute): Operand
  {
    if a.name == "id" then Attr(Attribute(JournalsTable, "journable_id"))
    else if a.name == "updated_at" then Attr(Attribute(JournalsTable, "updated_at"))
    else if a.name == "created_at" then SqlLiteral(Quoted(JournablesAlias) + "." + Quoted("created_at"))
    else Attr(Attribute(m.journalTableName, a.name))
  }

  /**
   * A `HomogeneousIn` on `created_at` of the live or journal table: the rule for
   * `created_at` assigns a new left side, and a `HomogeneousIn` node has no `left=`.
   */
  predicate HomogeneousCreatedAt(m: Model, k: ComparisonKind, a: Attribute)
  {
    k.HomogeneousIn? && OnJournableTable(m, a) && a.name == "created_at"
  }

  /**
   * A predicate can be rewritten without raising: no unknown node, no literal compared,
   * no `HomogeneousIn` on `created_at`.
   */
  predicate Translatable(m: Model, p: Predicate)
  {
    match p
    case Raw(_) => true
    case Comparison(k, left, _) => left.Attr? && !HomogeneousCreatedAt(m, k, left.attribute)
    case Grouping(l, r) => Translatable(m, l) && Translatable(m, r)
    case OtherNode(_) => false
  }

  /** Two predicates have the same tree, the same comparison kinds and the same compared values. */
  predicate SameShape(p: Predicate, q: Predicate)
  {
    match p
    case Raw(_) => q.Raw?
    case Comparison(k, _, v) => q.Comparison? && q.kind == k && q.value == v
    case Grouping(l, r) => q.Grouping? && SameShape(l, q.lhs) && SameShape(r, q.rhs)
    case OtherNode(c) => q == p
  }

  lemma SameShapeReflexive(p: Predicate)
    ensures SameShape(p, p)
  {
  }

  /**
   * `substitute_database_table_in_predicate`. The source edits the nodes in place and
   * visits a grouping's left side before its right side, so a raise on the right
   * leaves the left side rewritten.
   */
  function SubstitutePredicate(m: Model, p: Predicate): (r: Step<Predicate, RewriteError>)
    ensures r.raised.None? <==> Translatable(m, p)
    ensures SameShape(p, r.item)
    ensures p.Raw? ==> r == Step(Raw(GsubTableNames(m, p.sql)), None)
    ensures r.raised.Some? ==>
      r.raised.value.NotImplemented? || r.raised.value == NoMethod("relation") || r.raised.value == NoMethod("left=")
  {
    match p
    case Raw(sql) => Step(Raw(GsubTableNames(m, sql)), None)
    case Comparison(k, Attr(a), v) =>
      if HomogeneousCreatedAt(m, k, a) then Step(p, Some(NoMethod("left=")))
      else if OnJournableTable(m, a) then Step(Comparison(k, WhereTarget(m, a), v), None)
      else Step(p, None)
    case Comparison(_, SqlLiteral(_), _) => Step(p, Some(NoMethod("relation")))
    case Grouping(l, rt) =>
      var left := SubstitutePredicate(m, l);
      if left.raised.Some? then
        SameShapeReflexive(rt);
        Step(Grouping(left.item, rt), left.raised)
      else
        var right := SubstitutePredicate(m, rt);
        Step(Grouping(left.item, right.item), right.raised)
    case OtherNode(c) => Step(p, Some(NotImplemented(c)))
  }

  /** The step of the loop of `substitute_database_table_in_where_clause`. */
  function WhereStep(m: Model): Predicate -> Step<Predicate, RewriteError>
  {
    p => SubstitutePredicate(m, p)
  }

  /**
   * The where clause after `substitute_database_table_in_where_clause`: the predicates
   * rewritten one by one, in order, up to the first that raises.
   */
  function SubstituteAll(m: Model, ps: seq<Predicate>): Pass<Predicate, RewriteError>
  {
    RunPass(WhereStep(m), ps)
  }

  /**
   * The where clause raises exactly when one of its predicates cannot be translated,
   * and otherwise every predicate is rewritten on its own.
   */
  lemma SubstituteAllRaisesIffUntranslatable(m: Model, ps: seq<Predicate>)
    ensures SubstituteAll(m, ps).raised.None? <==> forall i :: 0 <= i < |ps| ==> Translatable(m, ps[i])
    ensures SubstituteAll(m, ps).raised.None? ==>
      forall i :: 0 <= i < |ps| ==> SubstituteAll(m, ps).items[i] == SubstitutePredicate(m, ps[i]).item
  {
    RunPassRaisesIff(WhereStep(m), ps);
    assert forall i :: 0 <= i < |ps| ==> WhereStep(m)(ps[i]) == SubstitutePredicate(m, ps[i]);
  }

  /**
   * The where loop, given where it stops: when the first `i` predicates rewrite without
   * a raise and predicate `i`, if there is one, cannot be translated, then the
   * predicates up to and including it are rewritten (its left side may be half done),
   * the ones after it are kept, and the loop raises what predicate `i` raised.
   */
  lemma SubstituteAllUpTo(m: Model, ps: seq<Predicate>, i: nat)
    requires i <= |ps|
    requires forall k :: 0 <= k < i ==> Translatable(m, ps[k])
    requires i < |ps| ==> !Translatable(m, ps[i])
    ensures SubstituteAll(m, ps).raised == if i < |ps| then SubstitutePredicate(m, ps[i]).raised else None
    ensures forall k :: 0 <= k < |ps| ==>
      SubstituteAll(m, ps).items[k] == if k <= i then SubstitutePredicate(m, ps[k]).item else ps[k]
  {
    assert forall k :: 0 <= k < |ps| ==> WhereStep(m)(ps[k]) == SubstitutePredicate(m, ps[k]);
    RunPassUpTo(WhereStep(m), ps, i);
  }

  /** Where a where-clause column lands, spelled out for each column name. */
  lemma ComparisonColumnRule(m: Model, k: ComparisonKind, a: Attribute, v: string)
    requires OnJournableTable(m, a)
    ensures var r := SubstitutePredicate(m, Comparison(k, Attr(a), v));
      && (r.raised == None <==> !(k.HomogeneousIn? && a.name == "created_at"))
      && (k.HomogeneousIn? && a.name == "created_at" ==>
            r == Step(Comparison(k, Attr(a), v), Some(NoMethod("left="))))
      && r.item.Comparison? && r.item.kind == k && r.item.value == v
      && (a.name == "id" ==> r.item.attribute == Attr(Attribute("journals", "journable_id")))
      && (a.name == "updated_at" ==> r.item.attribute == Attr(Attribute("journals", a.name)))
      && (a.name == "created_at" && !k.HomogeneousIn? ==>
            r.item.attribute == SqlLiteral("\"journables\".\"created_at\""))
      && (a.name !in {"id", "updated_at", "created_at"} ==>
            r.item.attribute == Attr(Attribute(m.journalTableName, a.name)))
  {
    if a.name == "created_at" {
      assert Quoted(JournablesAlias) + "." + Quoted("created_at") == "\"journables\".\"created_at\"";
    }
  }

  /** A comparison on any other table is left exactly as it was. */
  lemma OtherTableUntouched(m: Model, k: ComparisonKind, a: Attribute, v: string)
    requires !OnJournableTable(m, a)
    ensures SubstitutePredicate(m, Comparison(k, Attr(a), v)) == Step(Comparison(k, Attr(a), v), None)
  {
  }

  /** A grouping whose two sides translate is rewritten side by side. */
  lemma GroupingRewritesBothSides(m: Model, l: Predicate, r: Predicate)
    requires Translatable(m, l) && Translatable(m, r)
    ensures SubstitutePredicate(m, Grouping(l, r))
         == Step(Grouping(SubstitutePredicate(m, l).item, SubstitutePredicate(m, r).item), None)
  {
  }

  /** A comparison on `created_at` of the live or journal table. */
  predicate ComparesCreatedAt(m: Model, p: Predicate)
  {
    match p
    case Raw(_) => false
    case Comparison(_, left, _) => left.Attr? && OnJournableTable(m, left.attribute) && left.attribute.name == "created_at"
    case Grouping(l, r) => ComparesCreatedAt(m, l) || ComparesCreatedAt(m, r)
    case OtherNode(_) => false
  }

  predicate HasRaw(p: Predicate)
  {
    match p
    case Raw(_) => true
    case Comparison(_, _, _) => false
    case Grouping(l, r) => HasRaw(l) || HasRaw(r)
    case OtherNode(_) => false
  }

  /**
   * Rewriting a rewritten predicate a second time changes no comparison, except that a
   * `created_at` comparison, whose left side the first pass replaced by a literal, now
   * raises.
   */
  lemma {:induction false} SecondPass(m: Model, p: Predicate)
    requires ValidModel(m) && Translatable(m, p) && !HasRaw(p)
    ensures var once := SubstitutePredicate(m, p).item;
      && (SubstitutePredicate(m, once).raised.None? <==> !ComparesCreatedAt(m, p))
      && (!ComparesCreatedAt(m, p) ==> SubstitutePredicate(m, once).item == once)
  {
    match p
    case Comparison(k, Attr(a), v) =>
    case Grouping(l, r) =>
      SecondPass(m, l);
      SecondPass(m, r);
  }

  // ---------------------------------------------------------------------------
  // SQL strings
  // ---------------------------------------------------------------------------

  /**
   * One `gsub!` line of `gsub_table_names_in_sql_string!`, with `<table>` the live
   * table's name:
   * - `BareColumn(c, rep)`: the regular expression `(?<!_)<table>\.c`; the table name
   *   holds no character special to regular expressions, so it matches literally,
   *   except right after an underscore;
   * - `QuotedColumn(c, rep)`: the plain string `"<table>"."c"`;
   * - `QuotedTable(rep)`: the plain string `"<table>".`.
   */
  datatype Substitution =
    | BareColumn(column: string, replacement: string)
    | QuotedColumn(column: string, replacement: string)
    | QuotedTable(replacement: string)

  predicate WellFormed(x: Substitution)
  {
    x.BareColumn? || x.QuotedColumn? ==> Lacks(x.column, '.') && Lacks(x.column, '"')
  }

  /** The text a substitution looks for. */
  function Pattern(m: Model, x: Substitution): (p: string)
    ensures |p| > 0
  {
    match x
    case BareColumn(column, _) => m.tableName + "." + column
    case QuotedColumn(column, _) => Quoted(m.tableName) + "." + Quoted(column)
    case QuotedTable(_) => Quoted(m.tableName) + "."
  }

  function Apply(m: Model, x: Substitution, s: string): string
  {
    if x.BareColumn? then GsubUnlessAfterUnderscore(s, Pattern(m, x), x.replacement, false)
    else Gsub(s, Pattern(m, x), x.replacement)
  }

  /** The eight substitutions of the source, in its order. */
  function TableNameSubstitutions(m: Model): (subs: seq<Substitution>)
    ensures |subs| == 8 && forall k :: 0 <= k < |subs| ==> WellFormed(subs[k])
  {
    var jt := m.journalTableName;
    [ BareColumn("updated_at", "journals.updated_at"),
      QuotedColumn("updated_at", Quoted("journals") + "." + Quoted("updated_at")),
      BareColumn("created_at", "journables.created_at"),
      QuotedColumn("created_at", Quoted("journables") + "." + Quoted("created_at")),
      BareColumn("id", "journals.journable_id"),
      QuotedColumn("id", Quoted("journals") + "." + Quoted("journable_id")),
      BareColumn("", jt + "."),
      QuotedTable(Quoted(jt) + ".") ]
  }

  /** The substitutions applied one after the other, each to the result of the previous. */
  function ApplyAll(m: Model, subs: seq<Substitution>, s: string): string
    requires forall k :: 0 <= k < |subs| ==> WellFormed(subs[k])
    decreases |subs|
  {
    if subs == [] then s else ApplyAll(m, subs[1..], Apply(m, subs[0], s))
  }

  /** `gsub_table_names_in_sql_string!`. */
  function GsubTableNames(m: Model, sql: string): string
  {
    ApplyAll(m, TableNameSubstitutions(m), sql)
  }

  /** Substitutions that each leave a string alone leave it alone together. */
  lemma {:induction false} ApplyAllNoop(m: Model, subs: seq<Substitution>, s: string)
    requires forall k :: 0 <= k < |subs| ==> WellFormed(subs[k]) && Apply(m, subs[k], s) == s
    ensures ApplyAll(m, subs, s) == s
    decreases |subs|
  {
    if subs != [] {
      assert forall k :: 0 < k < |subs| ==> subs[k] == subs[1..][k - 1];
      ApplyAllNoop(m, subs[1..], s);
    }
  }

  /**
   * If the substitutions before `k` leave `s` alone, the one at `k` turns it into `r`,
   * and those after leave `r` alone, then all together turn `s` into `r`.
   */
  lemma {:induction false} ApplyAllSingleMatch(m: Model, subs: seq<Substitution>, s: string, k: nat, r: string)
    requires forall i :: 0 <= i < |subs| ==> WellFormed(subs[i])
    requires k < |subs| && Apply(m, subs[k], s) == r
    requires forall i :: 0 <= i < k ==> Apply(m, subs[i], s) == s
    requires forall i :: k < i < |subs| ==> Apply(m, subs[i], r) == r
    ensures ApplyAll(m, subs, s) == r
    decreases k
  {
    if k == 0 {
      assert forall i :: 0 < i < |subs| ==> subs[i] == subs[1..][i - 1];
      ApplyAllNoop(m, subs[1..], r);
    } else {
      assert forall i :: 0 < i < |subs| ==> subs[i] == subs[1..][i - 1];
      ApplyAllSingleMatch(m, subs[1..], s, k - 1, r);
    }
  }

  /** Where a bare `<table>.<c>` lands: the source's patterns are not bounded on the right. */
  function BareColumnTarget(m: Model, c: string): string
  {
    if StartsWith(c, "updated_at") then "journals.updated_at" + c[10..]
    else if StartsWith(c, "created_at") then "journables.created_at" + c[10..]
    else if StartsWith(c, "id") then "journals.journable_id" + c[2..]
    else m.journalTableName + "." + c
  }

  lemma IdentifierLacks(s: Identifier)
    ensures Lacks(s, '.') && Lacks(s, '"')
  {
  }

  lemma LacksConcat(a: string, b: string, ch: char)
    requires Lacks(a, ch) && Lacks(b, ch)
    ensures Lacks(a + b, ch)
  {
  }

  /** A bare step on `u + "." + w`: only a stem equal to the table name can match. */
  lemma BareStep(u: string, w: string, t: string, x: string, rep: string)
    requires Lacks(u, '.') && Lacks(w, '.') && Lacks(t, '.') && Lacks(x, '.')
    requires u == t || !EndsWith(u, t)
    ensures GsubUnlessAfterUnderscore(u + "." + w, t + "." + x, rep, false)
         == if u == t && StartsWith(w, x) then rep + w[|x|..] else u + "." + w
  {
    if u == t { GsubAligned(t, w, x, rep); } else { GsubMisaligned(u, w, t, x, rep, false); }
  }

  /** A quoted pattern cannot stand in a string without double quotes. */
  lemma QuotedStepNoop(s: string, pat: string, rep: string)
    requires Lacks(s, '"') && |pat| > 0 && pat[0] == '"'
    ensures Gsub(s, pat, rep) == s
  {
    LackedCharRulesOut(s, pat, 0);
    GsubWithoutOccurrence(s, pat, rep);
  }

  /** On a bare reference `u.w`, a substitution acts only when `u` is the table name. */
  lemma ApplyOnBareReference(m: Model, x: Substitution, u: string, w: string)
    requires WellFormed(x)
    requires Lacks(u, '.') && Lacks(w, '.') && Lacks(u, '"') && Lacks(w, '"')
    requires u == m.tableName || !EndsWith(u, m.tableName)
    ensures Apply(m, x, u + "." + w)
         == if x.BareColumn? && u == m.tableName && StartsWith(w, x.column)
            then x.replacement + w[|x.column|..] else u + "." + w
  {
    IdentifierLacks(m.tableName);
    if x.BareColumn? {
      BareStep(u, w, m.tableName, x.column, x.replacement);
    } else {
      LacksConcat(u + ".", w, '"');
      QuotedStepNoop(u + "." + w, Pattern(m, x), x.replacement);
    }
  }

  /** A bare reference whose stem neither is nor ends with the table name is left alone. */
  lemma GsubKeepsOtherStem(m: Model, u: string, w: string)
    requires Lacks(u, '.') && Lacks(w, '.') && Lacks(u, '"') && Lacks(w, '"')
    requires !EndsWith(u, m.tableName)
    ensures GsubTableNames(m, u + "." + w) == u + "." + w
  {
    var subs := TableNameSubstitutions(m);
    forall k | 0 <= k < |subs| ensures Apply(m, subs[k], u + "." + w) == u + "." + w {
      ApplyOnBareReference(m, subs[k], u, w);
    }
    ApplyAllNoop(m, subs, u + "." + w);
  }

  /**
   * On `<table>.<c>`, the substitution at `k` is the first bare one whose column begins
   * `c`; it produces the reference `u.w`, which no later substitution touches.
   */
  lemma FirstBareMatch(m: Model, c: string, k: nat, u: string, w: string)
    requires ValidModel(m) && Lacks(c, '.') && Lacks(c, '"')
    requires k < 8
    requires var x := TableNameSubstitutions(m)[k];
      x.BareColumn? && StartsWith(c, x.column) && x.replacement + c[|x.column|..] == u + "." + w
    requires forall i :: 0 <= i < k ==> var x := TableNameSubstitutions(m)[i];
      !(x.BareColumn? && StartsWith(c, x.column))
    requires Lacks(u, '.') && Lacks(w, '.') && Lacks(u, '"') && Lacks(w, '"')
    requires !EndsWith(u, m.tableName)
    ensures GsubTableNames(m, m.tableName + "." + c) == u + "." + w
  {
    var t, subs := m.tableName, TableNameSubstitutions(m);
    var s, r := t + "." + c, u + "." + w;
    forall i | 0 <= i <= k ensures Apply(m, subs[i], s)
      == if subs[i].BareColumn? && StartsWith(c, subs[i].column) then subs[i].replacement + c[|subs[i].column|..] else s
    {
      ApplyOnBareReference(m, subs[i], t, c);
    }
    forall i | k < i < |subs| ensures Apply(m, subs[i], r) == r {
      ApplyOnBareReference(m, subs[i], u, w);
    }
    ApplyAllSingleMatch(m, subs, s, k, r);
  }

  lemma GsubBareUpdatedAt(m: Model, c: string)
    requires ValidModel(m) && Lacks(c, '.') && Lacks(c, '"')
    requires StartsWith(c, "updated_at")
    ensures GsubTableNames(m, m.tableName + "." + c) == "journals.updated_at" + c[10..]
  {
    var w := "updated_at" + c[10..];
    assert TableNameSubstitutions(m)[0].replacement == JournalsTable + "." + "updated_at";
    LacksConcat("updated_at", c[10..], '.'); LacksConcat("updated_at", c[10..], '"');
    FirstBareMatch(m, c, 0, JournalsTable, w);
  }

  lemma GsubBareCreatedAt(m: Model, c: string)
    requires ValidModel(m) && Lacks(c, '.') && Lacks(c, '"')
    requires !StartsWith(c, "updated_at") && StartsWith(c, "created_at")
    ensures GsubTableNames(m, m.tableName + "." + c) == "journables.created_at" + c[10..]
  {
    var w := "created_at" + c[10..];
    assert TableNameSubstitutions(m)[2].replacement == JournablesAlias + "." + "created_at";
    LacksConcat("created_at", c[10..], '.'); LacksConcat("created_at", c[10..], '"');
    FirstBareMatch(m, c, 2, JournablesAlias, w);
  }

  lemma GsubBareId(m: Model, c: string)
    requires ValidModel(m) && Lacks(c, '.') && Lacks(c, '"')
    requires !StartsWith(c, "updated_at") && !StartsWith(c, "created_at") && StartsWith(c, "id")
    ensures GsubTableNames(m, m.tableName + "." + c) == "journals.journable_id" + c[2..]
  {
    var w := "journable_id" + c[2..];
    assert TableNameSubstitutions(m)[4].replacement == JournalsTable + "." + "journable_id";
    LacksConcat("journable_id", c[2..], '.'); LacksConcat("journable_id", c[2..], '"');
    FirstBareMatch(m, c, 4, JournalsTable, w);
  }

  lemma GsubBareOther(m: Model, c: string)
    requires ValidModel(m) && Lacks(c, '.') && Lacks(c, '"')
    requires !StartsWith(c, "updated_at") && !StartsWith(c, "created_at") && !StartsWith(c, "id")
    ensures GsubTableNames(m, m.tableName + "." + c) == m.journalTableName + "." + c
  {
    assert c[0..] == c;
    IdentifierLacks(m.journalTableName);
    FirstBareMatch(m, c, 6, m.journalTableName, c);
  }

  /**
   * A bare column reference `<table>.<c>` of the live table: `updated_at`, `created_at`
   * and `id` go where the where rule and `pluck` send them, every other column to the
   * journal table; a column that merely begins with one of those three names is
   * rewritten like that name (`<table>.identifier` becomes `journals.journable_identifier`).
   */
  lemma GsubBareColumn(m: Model, c: string)
    requires ValidModel(m) && Lacks(c, '.') && Lacks(c, '"')
    ensures GsubTableNames(m, m.tableName + "." + c) == BareColumnTarget(m, c)
  {
    if StartsWith(c, "updated_at") {
      GsubBareUpdatedAt(m, c);
    } else if StartsWith(c, "created_at") {
      GsubBareCreatedAt(m, c);
    } else if StartsWith(c, "id") {
      GsubBareId(m, c);
    } else {
      GsubBareOther(m, c);
    }
  }

  lemma QuotedLacks(u: string, ch: char)
    requires Lacks(u, ch) && ch != '"'
    ensures Lacks(Quoted(u), ch)
  {
  }

  /** The characters strictly inside `Quoted(u)` are those of `u`. */
  lemma QuotedInside(u: string)
    requires Lacks(u, '"')
    ensures forall i :: 1 <= i <= |u| ==> Quoted(u)[i] != '"'
  {
    forall i | 1 <= i <= |u| ensures Quoted(u)[i] != '"' { assert Quoted(u)[i] == u[i - 1]; }
  }

  /** Between quoted names without quotes inside, a suffix is the whole name. */
  lemma QuotedEndsWith(u: string, v: string)
    requires Lacks(u, '"') && Lacks(v, '"') && EndsWith(Quoted(u), Quoted(v))
    ensures u == v
  {
    QuotedInside(u);
    assert Quoted(u)[|Quoted(u)| - |Quoted(v)|] == Quoted(v)[0];
    assert |u| == |v|;
    assert u == Quoted(u)[1..|u| + 1] == Quoted(v)[1..|v| + 1] == v;
  }

  /** Between quoted names without quotes inside, a prefix is the whole name. */
  lemma QuotedStartsWith(w: string, c: string)
    requires Lacks(w, '"') && Lacks(c, '"')
    ensures StartsWith(Quoted(w), Quoted(c)) <==> w == c
  {
    if StartsWith(Quoted(w), Quoted(c)) {
      QuotedInside(w);
      assert Quoted(w)[|c| + 1] == Quoted(c)[|c| + 1];
      assert w == Quoted(w)[1..|w| + 1] == Quoted(c)[1..|c| + 1] == c;
    }
  }

  /** A quoted name ends with a quote, which no identifier does. */
  lemma QuotedNotEndingInIdentifier(u: string, t: Identifier)
    ensures !EndsWith(Quoted(u), t)
  {
    assert Quoted(u)[|Quoted(u)| - 1] == '"';
  }

  /**
   * On a quoted reference `"u"."w"`, only the quoted substitutions act, and only when
   * `u` is the table name: a column substitution when `w` is its column, the table
   * substitution always.
   */
  lemma ApplyOnQuotedReference(m: Model, x: Substitution, u: string, w: string)
    requires WellFormed(x)
    requires Lacks(u, '.') && Lacks(w, '.') && Lacks(u, '"') && Lacks(w, '"')
    ensures Apply(m, x, Quoted(u) + "." + Quoted(w))
         == if u == m.tableName && x.QuotedColumn? && x.column == w then x.replacement
            else if u == m.tableName && x.QuotedTable? then x.replacement + Quoted(w)
            else Quoted(u) + "." + Quoted(w)
  {
    var t := m.tableName;
    IdentifierLacks(t);
    QuotedLacks(u, '.'); QuotedLacks(w, '.'); QuotedLacks(t, '.');
    match x
    case BareColumn(column, rep) =>
      QuotedNotEndingInIdentifier(u, t);
      GsubMisaligned(Quoted(u), Quoted(w), t, column, rep, false);
    case QuotedColumn(column, rep) =>
      QuotedLacks(column, '.');
      if u == t {
        QuotedStartsWith(w, column);
        GsubAligned(Quoted(t), Quoted(w), Quoted(column), rep);
        assert w == column ==> Quoted(w)[|Quoted(column)|..] == "";
      } else {
        if EndsWith(Quoted(u), Quoted(t)) { QuotedEndsWith(u, t); }
        GsubMisaligned(Quoted(u), Quoted(w), Quoted(t), Quoted(column), rep, false);
      }
    case QuotedTable(rep) =>
      assert Pattern(m, x) == Quoted(t) + "." + "";
      if u == t {
        GsubAligned(Quoted(t), Quoted(w), "", rep);
        assert Quoted(w)[0..] == Quoted(w);
      } else {
        if EndsWith(Quoted(u), Quoted(t)) { QuotedEndsWith(u, t); }
        GsubMisaligned(Quoted(u), Quoted(w), Quoted(t), "", rep, false);
      }
  }

  /** The quoted substitutions that act on the quoted reference `"<table>"."c"`. */
  predicate ActsOnQuoted(x: Substitution, c: string)
  {
    (x.QuotedColumn? && x.column == c) || x.QuotedTable?
  }

  /** What an acting quoted substitution makes of `"<table>"."c"`. */
  function QuotedResult(x: Substitution, c: string): string
  {
    if x.QuotedColumn? then x.replacement else x.replacement + Quoted(c)
  }

  /**
   * On `"<table>"."c"`, the substitution at `k` is the first quoted one that acts; it
   * produces the quoted reference `"u"."w"` of another table, which no later
   * substitution touches.
   */
  lemma FirstQuotedMatch(m: Model, c: string, k: nat, u: string, w: string)
    requires ValidModel(m) && Lacks(c, '.') && Lacks(c, '"')
    requires k < 8
    requires var x := TableNameSubstitutions(m)[k];
      ActsOnQuoted(x, c) && QuotedResult(x, c) == Quoted(u) + "." + Quoted(w)
    requires forall i :: 0 <= i < k ==> !ActsOnQuoted(TableNameSubstitutions(m)[i], c)
    requires Lacks(u, '.') && Lacks(w, '.') && Lacks(u, '"') && Lacks(w, '"')
    requires u != m.tableName
    ensures GsubTableNames(m, Quoted(m.tableName) + "." + Quoted(c)) == Quoted(u) + "." + Quoted(w)
  {
    var t, subs := m.tableName, TableNameSubstitutions(m);
    var s, r := Quoted(t) + "." + Quoted(c), Quoted(u) + "." + Quoted(w);
    IdentifierLacks(t);
    forall i | 0 <= i <= k ensures Apply(m, subs[i], s)
      == if ActsOnQuoted(subs[i], c) then QuotedResult(subs[i], c) else s
    {
      ApplyOnQuotedReference(m, subs[i], t, c);
    }
    forall i | k < i < |subs| ensures Apply(m, subs[i], r) == r {
      ApplyOnQuotedReference(m, subs[i], u, w);
    }
    ApplyAllSingleMatch(m, subs, s, k, r);
  }

  lemma EndsWithItself(u: string)
    ensures EndsWith(u, u)
  {
    assert u[0..] == u;
  }

  /**
   * A quoted column reference `"<table>"."c"` of the live table is rewritten to the very
   * column the where rule reads it from: the string pass and the node rewrite agree.
   */
  lemma GsubQuotedColumn(m: Model, c: string)
    requires ValidModel(m) && Lacks(c, '.') && Lacks(c, '"')
    ensures GsubTableNames(m, Sql(Attr(Attribute(m.tableName, c)))) == Sql(WhereTarget(m, Attribute(m.tableName, c)))
  {
    var t, subs := m.tableName, TableNameSubstitutions(m);
    EndsWithItself(t);
    if c == "updated_at" {
      FirstQuotedMatch(m, c, 1, JournalsTable, "updated_at");
    } else if c == "created_at" {
      FirstQuotedMatch(m, c, 3, JournablesAlias, "created_at");
    } else if c == "id" {
      FirstQuotedMatch(m, c, 5, JournalsTable, "journable_id");
    } else {
      IdentifierLacks(m.journalTableName);
      EndsWithItself(m.journalTableName);
      FirstQuotedMatch(m, c, 7, m.journalTableName, c);
    }
  }

  /**
   * SQL that mentions neither `<table>.` nor `"<table>".` is left alone: every pattern
   * of the pass begins with one of the two.
   */
  lemma GsubIgnoresOtherSql(m: Model, sql: string)
    requires !Occurs(sql, m.tableName + ".") && !Occurs(sql, Quoted(m.tableName) + ".")
    ensures GsubTableNames(m, sql) == sql
  {
    var subs := TableNameSubstitutions(m);
    forall k | 0 <= k < |subs| ensures Apply(m, subs[k], sql) == sql {
      var x := subs[k];
      if x.BareColumn? {
        NoOccurrenceOfExtension(sql, m.tableName + ".", x.column);
        GsubUnlessWithoutOccurrence(sql, Pattern(m, x), x.replacement, false);
      } else if x.QuotedColumn? {
        NoOccurrenceOfExtension(sql, Quoted(m.tableName) + ".", Quoted(x.column));
        GsubWithoutOccurrence(sql, Pattern(m, x), x.replacement);
      } else {
        GsubWithoutOccurrence(sql, Pattern(m, x), x.replacement);
      }
    }
    ApplyAllNoop(m, subs, sql);
  }
}
