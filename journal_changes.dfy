/**
 * `JournalChanges`: the changes a journal records against its predecessor, for the
 * journaled attributes and for the journaled associations (attachments and custom
 * values).
 */
module JournalChanges {
  import opened Wrappers
  import opened Text
  import opened Decimal
  import opened Collation

  /** A row of an association journal: the associated record's id and its value. */
  datatype Reference = Reference(id: nat, value: string)

  /** One entry of the result, `[old_value, new_value]`; `None` is Ruby's `nil`. */
  datatype ChangePair = ChangePair(before: Option<string>, after: Option<string>)

  /** The journaled attributes of a journal's data row, `nil` included. */
  type JournalData = map<string, Option<string>>

  type Changes = map<string, ChangePair>

  // ---------------------------------------------------------------------------
  // Merging the association rows by id
  // ---------------------------------------------------------------------------

  /** The values of the rows with the given id, in row order. */
  function ValuesOf(rows: seq<Reference>, id: nat): (r: seq<string>)
    ensures |r| == 0 <==> forall i :: 0 <= i < |rows| ==> rows[i].id != id
    decreases |rows|
  {
    if rows == [] then []
    else (if rows[0].id == id then [rows[0].value] else []) + ValuesOf(rows[1..], id)
  }

  /** `select_and_combine_journals`: `nil` without a row, else the values sorted and comma-joined. */
  function SelectAndCombine(rows: seq<Reference>, id: nat): (r: Option<string>)
    ensures r.None? <==> forall i :: 0 <= i < |rows| ==> rows[i].id != id
  {
    var values := ValuesOf(rows, id);
    if values == [] then None else Some(Join(Sort(values), ","))
  }

  /** How often a value stands among the rows of an id: as often as the row itself. */
  lemma {:induction false} ValuesOfCount(rows: seq<Reference>, id: nat, v: string)
    ensures multiset(ValuesOf(rows, id))[v] == multiset(rows)[Reference(id, v)]
    decreases |rows|
  {
    if rows != [] {
      ValuesOfCount(rows[1..], id, v);
      assert rows == [rows[0]] + rows[1..];
      assert multiset(rows) == multiset{rows[0]} + multiset(rows[1..]);
    }
  }

  /**
   * The combined value of an id, when it has rows, is its values sorted and joined with
   * commas: any sorted list holding each value as often as the id's rows do gives it.
   */
  lemma SelectAndCombineValue(rows: seq<Reference>, id: nat, s: seq<string>)
    requires s != [] && Sorted(s)
    requires forall v :: multiset(s)[v] == multiset(rows)[Reference(id, v)]
    ensures SelectAndCombine(rows, id) == Some(Join(s, ","))
  {
    var values := ValuesOf(rows, id);
    forall v ensures multiset(values)[v] == multiset(s)[v] {
      ValuesOfCount(rows, id, v);
    }
    assert multiset(values) == multiset(s);
    assert s[0] in multiset(values);
    SortedUnique(Sort(values), s);
  }

  /** The combined value of an id does not depend on the order of the rows. */
  lemma SelectAndCombineIgnoresOrder(rows: seq<Reference>, shuffled: seq<Reference>, id: nat)
    requires multiset(rows) == multiset(shuffled)
    ensures SelectAndCombine(rows, id) == SelectAndCombine(shuffled, id)
  {
    forall v ensures multiset(ValuesOf(rows, id))[v] == multiset(ValuesOf(shuffled, id))[v] {
      ValuesOfCount(rows, id, v);
      ValuesOfCount(shuffled, id, v);
    }
    assert multiset(ValuesOf(rows, id)) == multiset(ValuesOf(shuffled, id));
    SortIgnoresOrder(ValuesOf(rows, id), ValuesOf(shuffled, id));
  }

  /** The ids of the rows. */
  function Ids(rows: seq<Reference>): set<nat>
  {
    set i | 0 <= i < |rows| :: rows[i].id
  }

  /** `merge_reference_journals_by_id`: each id of either side, with its old and its new combined value. */
  function MergeById(current: seq<Reference>, previous: seq<Reference>): (r: map<nat, ChangePair>)
    ensures r.Keys == Ids(current) + Ids(previous)
    ensures forall id :: id in r ==> (r[id].before.Some? <==> id in Ids(previous)) && (r[id].after.Some? <==> id in Ids(current))
    ensures forall id :: id in r ==> r[id].before.Some? || r[id].after.Some?
    ensures forall id :: id in r ==> r[id] == ChangePair(SelectAndCombine(previous, id), SelectAndCombine(current, id))
  {
    map id | id in Ids(current) + Ids(previous) :: ChangePair(SelectAndCombine(previous, id), SelectAndCombine(current, id))
  }

  // ---------------------------------------------------------------------------
  // Classifying and formatting
  // ---------------------------------------------------------------------------

  /** `added_references`' test: no old value and a present new one. */
  predicate Added(p: ChangePair)
  {
    p.before.None? && p.after.Some? && Present(p.after.value)
  }

  /** `removed_references`' test: a present old value and no new one. */
  predicate Removed(p: ChangePair)
  {
    p.before.Some? && Present(p.before.value) && p.after.None?
  }

  /** `changed_references`' test: two present values that differ once stripped. */
  predicate Changed(p: ChangePair)
  {
    p.before.Some? && p.after.Some? && Present(p.before.value) && Present(p.after.value)
    && Strip(p.before.value) != Strip(p.after.value)
  }

  /** The three tests never hold together, so merging their selections loses nothing. */
  lemma ClassificationsExclusive(p: ChangePair)
    ensures !(Added(p) && Removed(p)) && !(Added(p) && Changed(p)) && !(Removed(p) && Changed(p))
  {
  }

  /** A value and the same value padded with white space are no change. */
  lemma PaddingIsNoChange(w1: string, a: string, w2: string)
    requires AllStripped(w1) && AllStripped(w2)
    ensures !Changed(ChangePair(Some(w1 + a + w2), Some(a)))
    ensures !Added(ChangePair(Some(w1 + a + w2), Some(a))) && !Removed(ChangePair(Some(w1 + a + w2), Some(a)))
  {
    StripIgnoresPadding(w1, a, w2);
    assert [] + a + [] == a;
    StripIgnoresPadding([], a, []);
  }

  function AddedReferences(merged: map<nat, ChangePair>): map<nat, ChangePair>
  {
    map id | id in merged && Added(merged[id]) :: merged[id]
  }

  function RemovedReferences(merged: map<nat, ChangePair>): map<nat, ChangePair>
  {
    map id | id in merged && Removed(merged[id]) :: merged[id]
  }

  function ChangedReferences(merged: map<nat, ChangePair>): map<nat, ChangePair>
  {
    map id | id in merged && Changed(merged[id]) :: merged[id]
  }

  /** An entry that is added, removed or changed. */
  predicate IsChange(p: ChangePair)
  {
    Added(p) || Removed(p) || Changed(p)
  }

  /** The merge of the three selections is the selection of the changes, each entry kept as it was. */
  lemma SelectionsMerge(merged: map<nat, ChangePair>)
    ensures AddedReferences(merged) + RemovedReferences(merged) + ChangedReferences(merged)
         == map id | id in merged && IsChange(merged[id]) :: merged[id]
  {
  }

  /** The key of a change of an association record: `"<association>_<id>"`. */
  function ChangeKey(association: string, id: nat): string
  {
    association + "_" + NatToString(id)
  }

  lemma ChangeKeyInjective(association: string, i: nat, j: nat)
    requires ChangeKey(association, i) == ChangeKey(association, j)
    ensures i == j
  {
    var p := association + "_";
    assert NatToString(i) == ChangeKey(association, i)[|p|..] == ChangeKey(association, j)[|p|..] == NatToString(j);
    NatToStringInjective(i, j);
  }

  /** `to_changes_format`. */
  function ToChangesFormat(references: map<nat, ChangePair>, association: string): (r: Changes)
    ensures forall id :: id in references <==> ChangeKey(association, id) in r
    ensures forall id :: id in references ==> r[ChangeKey(association, id)] == references[id]
    ensures forall k :: k in r ==> exists id :: id in references && k == ChangeKey(association, id)
  {
    forall i: nat, j: nat | ChangeKey(association, i) == ChangeKey(association, j)
      ensures i == j
    {
      ChangeKeyInjective(association, i, j);
    }
    var r := map id | id in references :: ChangeKey(association, id) := references[id];
    forall id | ChangeKey(association, id) in r ensures id in references {
      var other :| other in references && ChangeKey(association, other) == ChangeKey(association, id);
    }
    r
  }

  /** `changes_on_association`. */
  function ChangesOnAssociation(current: seq<Reference>, previous: seq<Reference>, association: string): Changes
  {
    var merged := MergeById(current, previous);
    ToChangesFormat(AddedReferences(merged) + RemovedReferences(merged) + ChangedReferences(merged), association)
  }

  /**
   * The changes of an association: one entry per id of either side that is added,
   * removed or changed, under the key `"<association>_<id>"`, holding the merged
   * pair; ids without a change have no entry, and every key names an id of the rows.
   */
  lemma ChangesOnAssociationEntries(current: seq<Reference>, previous: seq<Reference>, association: string)
    ensures var merged := MergeById(current, previous);
      var r := ChangesOnAssociation(current, previous, association);
      && (forall id :: ChangeKey(association, id) in r <==> id in merged && IsChange(merged[id]))
      && (forall id :: ChangeKey(association, id) in r ==> r[ChangeKey(association, id)] == merged[id])
      && (forall k :: k in r ==> exists id :: id in Ids(current) + Ids(previous) && k == ChangeKey(association, id))
  {
    SelectionsMerge(MergeById(current, previous));
  }

  /** A journal whose rows equal its predecessor's records no association change. */
  lemma IdenticalRowsNoChanges(rows: seq<Reference>, association: string)
    ensures ChangesOnAssociation(rows, rows, association) == map[]
  {
    ChangesOnAssociationEntries(rows, rows, association);
  }

  /** Turning a pair round turns added into removed and keeps changed. */
  lemma SwapClassification(p: ChangePair)
    ensures Added(p) <==> Removed(ChangePair(p.after, p.before))
    ensures Removed(p) <==> Added(ChangePair(p.after, p.before))
    ensures Changed(p) <==> Changed(ChangePair(p.after, p.before))
  {
  }

  /** The two sides swapped, added and removed swap and the pairs turn round. */
  lemma SwappingSidesSwapsPairs(a: seq<Reference>, b: seq<Reference>, association: string, id: nat)
    ensures var forward := ChangesOnAssociation(a, b, association);
      var backward := ChangesOnAssociation(b, a, association);
      var k := ChangeKey(association, id);
      && (k in forward <==> k in backward)
      && (k in forward ==>
            && backward[k] == ChangePair(forward[k].after, forward[k].before)
            && (Added(forward[k]) <==> Removed(backward[k])))
  {
    var forward, backward := MergeById(a, b), MergeById(b, a);
    ChangesOnAssociationEntries(a, b, association);
    ChangesOnAssociationEntries(b, a, association);
    assert id in forward <==> id in backward;
    if id in forward {
      var p := forward[id];
      assert backward[id] == ChangePair(p.after, p.before);
      SwapClassification(p);
    }
  }

  /** The changes do not depend on the order of the rows on either side. */
  lemma ChangesIgnoreRowOrder(current: seq<Reference>, current2: seq<Reference>,
                              previous: seq<Reference>, previous2: seq<Reference>, association: string)
    requires multiset(current) == multiset(current2) && multiset(previous) == multiset(previous2)
    ensures ChangesOnAssociation(current, previous, association) == ChangesOnAssociation(current2, previous2, association)
  {
    forall id ensures SelectAndCombine(current, id) == SelectAndCombine(current2, id)
                   && SelectAndCombine(previous, id) == SelectAndCombine(previous2, id)
    {
      SelectAndCombineIgnoresOrder(current, current2, id);
      SelectAndCombineIgnoresOrder(previous, previous2, id);
    }
    assert Ids(current) == Ids(current2) by {
      forall x ensures x in Ids(current) <==> x in Ids(current2) {
        assert x in Ids(current) <==> SelectAndCombine(current, x).Some?;
        assert x in Ids(current2) <==> SelectAndCombine(current2, x).Some?;
      }
    }
    assert Ids(previous) == Ids(previous2) by {
      forall x ensures x in Ids(previous) <==> x in Ids(previous2) {
        assert x in Ids(previous) <==> SelectAndCombine(previous, x).Some?;
        assert x in Ids(previous2) <==> SelectAndCombine(previous2, x).Some?;
      }
    }
    assert MergeById(current, previous) == MergeById(current2, previous2);
  }

  /** Attachment keys and custom-field keys never collide. */
  lemma AssociationKeysDisjoint(i: nat, j: nat)
    ensures ChangeKey("attachments", i) != ChangeKey("custom_fields", j)
  {
    assert ChangeKey("attachments", i)[0] == 'a' && ChangeKey("custom_fields", j)[0] == 'c';
  }

  // ---------------------------------------------------------------------------
  // The initial journal
  // ---------------------------------------------------------------------------

  /** `initial_journal_data_changes`: every attribute with a value, as `[nil, value]`. */
  function InitialJournalDataChanges(data: JournalData): (r: Changes)
    ensures forall k :: k in r <==> k in data && data[k].Some?
    ensures forall k :: k in r ==> r[k].before.None?
  {
    map k | k in data && data[k].Some? :: ChangePair(None, data[k])
  }

  /** The new values of the initial changes are the attributes without their `nil`s. */
  lemma InitialChangesRecoverData(data: JournalData)
    ensures var r := InitialJournalDataChanges(data);
      (map k | k in r :: r[k].after.value) == (map k | k in data && data[k].Some? :: data[k].value)
  {
  }

  /**
   * The association changes of a journal without predecessor: each row, in order,
   * sets its key to `[nil, value]`, so the last row of an id wins.
   */
  function InitialAssociationChanges(rows: seq<Reference>, association: string): Changes
    decreases |rows|
  {
    if rows == [] then map[]
    else
      var last := rows[|rows| - 1];
      InitialAssociationChanges(rows[..|rows| - 1], association)[ChangeKey(association, last.id) := ChangePair(None, Some(last.value))]
  }

  /** The ids of all rows but the last, and the last one's. */
  lemma IdsSnoc(rows: seq<Reference>)
    requires rows != []
    ensures Ids(rows) == Ids(rows[..|rows| - 1]) + {rows[|rows| - 1].id}
  {
    var init := rows[..|rows| - 1];
    assert forall i :: 0 <= i < |init| ==> init[i] == rows[i];
  }

  /** The keys are the keys of the rows' ids, and only those. */
  lemma {:induction false} InitialAssociationKeys(rows: seq<Reference>, association: string)
    ensures var r := InitialAssociationChanges(rows, association);
      && (forall id :: ChangeKey(association, id) in r <==> id in Ids(rows))
      && (forall k :: k in r ==> exists id :: id in Ids(rows) && k == ChangeKey(association, id))
    decreases |rows|
  {
    if rows != [] {
      var init, last := rows[..|rows| - 1], rows[|rows| - 1];
      InitialAssociationKeys(init, association);
      IdsSnoc(rows);
      forall id | ChangeKey(association, id) == ChangeKey(association, last.id) ensures id == last.id {
        ChangeKeyInjective(association, id, last.id);
      }
    }
  }

  /** Each key holds the value of the last row with that id. */
  lemma {:induction false} InitialAssociationLastRowWins(rows: seq<Reference>, association: string, i: nat)
    requires i < |rows|
    requires forall j :: i < j < |rows| ==> rows[j].id != rows[i].id
    ensures var r := InitialAssociationChanges(rows, association);
      ChangeKey(association, rows[i].id) in r && r[ChangeKey(association, rows[i].id)] == ChangePair(None, Some(rows[i].value))
    decreases |rows|
  {
    var init, last := rows[..|rows| - 1], rows[|rows| - 1];
    if i < |rows| - 1 {
      assert rows[i] == init[i];
      InitialAssociationLastRowWins(init, association, i);
      if ChangeKey(association, rows[i].id) == ChangeKey(association, last.id) {
        ChangeKeyInjective(association, rows[i].id, last.id);
      }
    }
  }

  // ---------------------------------------------------------------------------
  // get_changes
  // ---------------------------------------------------------------------------

  /** The predecessor journal, as far as the changes read it. */
  datatype PredecessorJournal = PredecessorJournal(
    data: Option<JournalData>,
    attachableJournals: seq<Reference>,
    customizableJournals: seq<Reference>)

  /** `get_association_changes`. */
  function AssociationChanges(predecessor: Option<seq<Reference>>, rows: seq<Reference>, association: string): Changes
  {
    if predecessor.None? then InitialAssociationChanges(rows, association)
    else ChangesOnAssociation(rows, predecessor.value, association)
  }

  /**
   * What `get_changes` computes for a journal with data: the attribute changes
   * (`differ` stands for `JournableDiffer.changes`), merged with the attachment
   * changes and then with the custom-field changes, later keys winning.
   */
  function ComputeChanges(data: JournalData, predecessor: Option<PredecessorJournal>,
                          attachable: seq<Reference>, customizable: seq<Reference>,
                          differ: (Option<JournalData>, JournalData) -> Changes): Changes
  {
    var attributes := if predecessor.None? then InitialJournalDataChanges(data)
                      else differ(predecessor.value.data, data);
    var previousAttachable := if predecessor.None? then None else Some(predecessor.value.attachableJournals);
    var previousCustomizable := if predecessor.None? then None else Some(predecessor.value.customizableJournals);
    attributes + AssociationChanges(previousAttachable, attachable, "attachments")
               + AssociationChanges(previousCustomizable, customizable, "custom_fields")
  }

  /**
   * The merge keeps every association change: an attachment key holds the attachment
   * change and a custom-field key the custom-field change; an attribute keeps the
   * change of the branch `predecessor` selects, the initial one without a predecessor
   * and the differ's otherwise, unless an association change has the same key.
   */
  lemma ComputeChangesKeepsEachPart(data: JournalData, predecessor: Option<PredecessorJournal>,
                                    attachable: seq<Reference>, customizable: seq<Reference>,
                                    differ: (Option<JournalData>, JournalData) -> Changes, id: nat)
    ensures var r := ComputeChanges(data, predecessor, attachable, customizable, differ);
      var previousAttachable := if predecessor.None? then None else Some(predecessor.value.attachableJournals);
      var previousCustomizable := if predecessor.None? then None else Some(predecessor.value.customizableJournals);
      var attachments := AssociationChanges(previousAttachable, attachable, "attachments");
      var customFields := AssociationChanges(previousCustomizable, customizable, "custom_fields");
      && (ChangeKey("attachments", id) in attachments ==> r[ChangeKey("attachments", id)] == attachments[ChangeKey("attachments", id)])
      && (ChangeKey("custom_fields", id) in customFields ==> r[ChangeKey("custom_fields", id)] == customFields[ChangeKey("custom_fields", id)])
      && (predecessor.None? ==> forall k :: k in data && data[k].Some? && k !in attachments && k !in customFields ==>
            r[k] == ChangePair(None, data[k]))
      && (predecessor.Some? ==> forall k :: k in differ(predecessor.value.data, data) && k !in attachments && k !in customFields ==>
            r[k] == differ(predecessor.value.data, data)[k])
  {
    var previousAttachable := if predecessor.None? then None else Some(predecessor.value.attachableJournals);
    var previousCustomizable := if predecessor.None? then None else Some(predecessor.value.customizableJournals);
    var customFields := AssociationChanges(previousCustomizable, customizable, "custom_fields");
    if ChangeKey("attachments", id) in customFields {
      if predecessor.None? {
        InitialAssociationKeys(customizable, "custom_fields");
      } else {
        ChangesOnAssociationEntries(customizable, predecessor.value.customizableJournals, "custom_fields");
      }
      var j :| ChangeKey("attachments", id) == ChangeKey("custom_fields", j);
      AssociationKeysDisjoint(id, j);
    }
  }

  /** A journal and the memo of `get_changes`. */
  class Journal {
    const data: Option<JournalData>
    const predecessor: Option<PredecessorJournal>
    const attachableJournals: seq<Reference>
    const customizableJournals: seq<Reference>
    /** `@changes`. */
    var changes: Option<Changes>

    constructor (data: Option<JournalData>, predecessor: Option<PredecessorJournal>,
                 attachableJournals: seq<Reference>, customizableJournals: seq<Reference>)
      ensures this.data == data && this.predecessor == predecessor
      ensures this.attachableJournals == attachableJournals && this.customizableJournals == customizableJournals
      ensures changes.None?
    {
      this.data, this.predecessor := data, predecessor;
      this.attachableJournals, this.customizableJournals := attachableJournals, customizableJournals;
      changes := None;
    }

    /**
     * `get_changes`: the memo if there is one; `{}` without data, remembering nothing;
     * otherwise the attribute changes, into which the two association changes are
     * merged in place, remembered for later calls.
     */
    method GetChanges(differ: (Option<JournalData>, JournalData) -> Changes) returns (r: Changes)
      modifies this
      ensures old(changes).Some? ==> r == old(changes).value && changes == old(changes)
      ensures old(changes).None? && data.None? ==> r == map[] && changes.None?
      ensures old(changes).None? && data.Some? ==>
        r == ComputeChanges(data.value, predecessor, attachableJournals, customizableJournals, differ)
        && changes == Some(r)
    {
      if changes.Some? {
        return changes.value;
      }
      if data.None? {
        return map[];
      }
      var attributes := if predecessor.None? then InitialJournalDataChanges(data.value)
                        else differ(predecessor.value.data, data.value);
      changes := Some(attributes);
      var previousAttachable := if predecessor.None? then None else Some(predecessor.value.attachableJournals);
      changes := Some(changes.value + AssociationChanges(previousAttachable, attachableJournals, "attachments"));
      var previousCustomizable := if predecessor.None? then None else Some(predecessor.value.customizableJournals);
      changes := Some(changes.value + AssociationChanges(previousCustomizable, customizableJournals, "custom_fields"));
      return changes.value;
    }
  }
}
