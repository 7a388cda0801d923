/*
 * Partial updates of a rental listing: the payload names the columns to
 * change, and a JSON column is changed by merging the payload's JSON into
 * the stored JSON. The merge resembles JSON Merge Patch (RFC 7396), except
 * that a null in the patch is stored instead of removing the key. A
 * payload without any field changes nothing and the stored listing is
 * returned as it is.
 */
module Immo24 {
  import opened Text

  /** JSON values; numbers are kept abstract as reals. */
  datatype Json =
    | Null
    | Bool(b: bool)
    | Number(n: real)
    | Str(s: string)
    | Array(items: seq<Json>)
    | Object(fields: map<string, Json>)

  // ---------------------------------------------------------------------
  // The merge

  /**
   * The value `target` becomes when `patch` is merged into it: two objects
   * are merged key by key, and in every other case the patch replaces the
   * target.
   */
  function Merge(target: Json, patch: Json): (r: Json)
    ensures !target.Object? || !patch.Object? ==> r == patch
    ensures target.Object? && patch.Object? ==>
      r.Object? && r.fields.Keys == target.fields.Keys + patch.fields.Keys
    decreases patch
  {
    if target.Object? && patch.Object? then
      Object(map k | k in target.fields.Keys + patch.fields.Keys ::
               if k !in patch.fields then target.fields[k]
               else if k in target.fields then Merge(target.fields[k], patch.fields[k])
               else patch.fields[k])
    else patch
  }

  /** Merging two objects keeps every key of either side and no other. */
  lemma MergeKeys(target: map<string, Json>, patch: map<string, Json>)
    ensures Merge(Object(target), Object(patch)).Object?
    ensures Merge(Object(target), Object(patch)).fields.Keys == target.Keys + patch.Keys
  {
  }

  /** Each key of the merged object, by where it occurs. */
  lemma MergeFields(target: map<string, Json>, patch: map<string, Json>, k: string)
    requires k in target || k in patch
    ensures k !in patch ==> Merge(Object(target), Object(patch)).fields[k] == target[k]
    ensures k in patch && k !in target ==> Merge(Object(target), Object(patch)).fields[k] == patch[k]
    ensures k in patch && k in target ==> Merge(Object(target), Object(patch)).fields[k] == Merge(target[k], patch[k])
  {
  }

  /** A patch that is not an object, or a target that is not one, is copied whole. */
  lemma MergeReplaces(target: Json, patch: Json)
    requires !target.Object? || !patch.Object?
    ensures Merge(target, patch) == patch
  {
  }

  /** A null in the patch is stored under its key; it does not delete the key. */
  lemma NullIsStored(target: map<string, Json>, patch: map<string, Json>, k: string)
    requires k in patch && patch[k] == Null
    ensures k in Merge(Object(target), Object(patch)).fields
    ensures Merge(Object(target), Object(patch)).fields[k] == Null
  {
  }

  /** Merging a value into itself changes nothing. */
  lemma {:induction false} MergeSelf(v: Json)
    ensures Merge(v, v) == v
    decreases v
  {
    if v.Object? {
      var r := Merge(v, v);
      forall k | k in v.fields ensures r.fields[k] == v.fields[k] {
        MergeSelf(v.fields[k]);
      }
      assert r.fields == v.fields;
    }
  }

  /** Applying the same patch twice is the same as applying it once. */
  lemma {:induction false} MergeIdempotent(target: Json, patch: Json)
    ensures Merge(Merge(target, patch), patch) == Merge(target, patch)
    decreases patch
  {
    var once := Merge(target, patch);
    if target.Object? && patch.Object? {
      var twice := Merge(once, patch);
      forall k | k in once.fields ensures twice.fields[k] == once.fields[k] {
        if k in patch.fields {
          if k in target.fields {
            MergeIdempotent(target.fields[k], patch.fields[k]);
          } else {
            MergeSelf(patch.fields[k]);
          }
        }
      }
      assert twice.fields == once.fields;
    } else {
      MergeSelf(patch);
    }
  }

  /** The value under `k` after merging the patch's key `k`. */
  function MergedField(target: map<string, Json>, patch: map<string, Json>, k: string): Json
    requires k in patch
  {
    if k in target then Merge(target[k], patch[k]) else patch[k]
  }

  /** The target's fields once the patch keys in `done` have been merged. */
  function Partial(target: map<string, Json>, patch: map<string, Json>, done: set<string>): (r: map<string, Json>)
    requires done <= patch.Keys
    ensures r.Keys == target.Keys + done
  {
    map k | k in target.Keys + done :: if k in done then MergedField(target, patch, k) else target[k]
  }

  lemma PartialAll(target: map<string, Json>, patch: map<string, Json>)
    ensures Object(Partial(target, patch, patch.Keys)) == Merge(Object(target), Object(patch))
  {
  }

  /** The merge, rewriting the target; two objects are merged by MergeFieldsInto. */
  method MergeInto(target: Json, patch: Json) returns (r: Json)
    ensures r == Merge(target, patch)
    decreases patch, 1
  {
    if target.Object? && patch.Object? {
      var fields := MergeFieldsInto(target.fields, patch.fields);
      PartialAll(target.fields, patch.fields);
      r := Object(fields);
    } else {
      r := patch;
    }
  }

  /** The loop over the patch's keys: merge into a present key, insert an absent one. */
  method MergeFieldsInto(target: map<string, Json>, patch: map<string, Json>) returns (fields: map<string, Json>)
    ensures fields == Partial(target, patch, patch.Keys)
    decreases Object(patch), 0
  {
    fields := target;
    var todo := patch.Keys;
    ghost var done: set<string> := {};
    while todo != {}
      invariant done == patch.Keys - todo && todo <= patch.Keys
      invariant fields.Keys == target.Keys + done
      invariant forall k :: k in fields ==> fields[k] == if k in done then MergedField(target, patch, k) else target[k]
      decreases todo
    {
      var key :| key in todo;
      var value := patch[key];
      assert value < Object(patch);
      var merged;
      if key in fields {
        merged := MergeInto(fields[key], value);
      } else {
        merged := value;
      }
      assert merged == MergedField(target, patch, key);
      fields := fields[key := merged];
      todo := todo - {key};
      done := done + {key};
    }
    assert done == patch.Keys;
    assert fields == Partial(target, patch, patch.Keys);
  }

  // ---------------------------------------------------------------------
  // Updating a listing

  /** The columns an update may set. */
  const StatusColumn := "status"
  const NotesColumn := "notes"
  const TotalRentColumn := "total_rent"
  const AddressColumn := "address"
  const PublishedAtColumn := "published_at"
  const PropertyDetailsColumn := "property_details"
  const SourceStatsColumn := "source_stats"
  const ContactPersonColumn := "contact_person"
  const TextDescriptionsColumn := "text_descriptions"
  const AiInsightsColumn := "ai_insights"
  const UpdatedAtColumn := "updated_at"

  /**
   * A value bound into the UPDATE statement, or the database's own clock
   * (`strftime('%Y-%m-%d %H:%M:%f', 'now')`), which SQLite evaluates.
   */
  datatype Bind = TextValue(text: string) | RealValue(x: real) | JsonValue(json: Json) | DatabaseNow

  /** One `column = value` clause of the UPDATE statement. */
  datatype Assignment = Assignment(column: string, value: Bind)

  /** The fields of an update request; every field is optional. */
  datatype Payload = Payload(status: Option<string>, totalRent: Option<real>, address: Option<string>,
                             publishedAt: Option<string>, notes: Option<string>,
                             propertyDetails: Option<Json>, sourceStats: Option<Json>,
                             contactPerson: Option<Json>, textDescriptions: Option<Json>,
                             aiInsights: Option<Json>)

  /** The stored JSON columns of the listing being updated. */
  datatype JsonColumns = JsonColumns(propertyDetails: Json, sourceStats: Json, contactPerson: Json,
                                     textDescriptions: Json, aiInsights: Json)

  /** Either nothing to do (the stored listing is returned) or the clauses to execute. */
  datatype Outcome = Unchanged | Execute(assignments: seq<Assignment>)

  /** A column the handler may set, with the value it binds when the field is given. */
  datatype Slot = Slot(column: string, value: Option<Bind>)

  function TextSlot(column: string, v: Option<string>): Slot
  {
    Slot(column, if v.Some? then Some(TextValue(v.value)) else None)
  }

  function RentSlot(rent: Option<real>): Slot
  {
    Slot(TotalRentColumn, if rent.Some? then Some(RealValue(rent.value)) else None)
  }

  /** A JSON column binds the patch merged into the stored value. */
  function JsonSlot(column: string, stored: Json, patch: Option<Json>): Slot
  {
    Slot(column, if patch.Some? then Some(JsonValue(Merge(stored, patch.value))) else None)
  }

  /** The columns in the order the handler considers them. */
  function Slots(current: JsonColumns, p: Payload): (r: seq<Slot>)
    ensures |r| == 10
  {
    [TextSlot(StatusColumn, p.status),
     TextSlot(NotesColumn, p.notes),
     RentSlot(p.totalRent),
     TextSlot(AddressColumn, p.address),
     TextSlot(PublishedAtColumn, p.publishedAt),
     JsonSlot(PropertyDetailsColumn, current.propertyDetails, p.propertyDetails),
     JsonSlot(SourceStatsColumn, current.sourceStats, p.sourceStats),
     JsonSlot(ContactPersonColumn, current.contactPerson, p.contactPerson),
     JsonSlot(TextDescriptionsColumn, current.textDescriptions, p.textDescriptions),
     JsonSlot(AiInsightsColumn, current.aiInsights, p.aiInsights)]
  }

  /** The clause of a slot: one when its field is given, none otherwise. */
  function Clause(slot: Slot): (r: seq<Assignment>)
    ensures r == [] <==> slot.value.None?
    ensures slot.value.Some? ==> r == [Assignment(slot.column, slot.value.value)]
  {
    if slot.value.Some? then [Assignment(slot.column, slot.value.value)] else []
  }

  /** One clause per given field among the first n slots, in slot order. */
  function Collect(slots: seq<Slot>, n: nat): (r: seq<Assignment>)
    requires n <= |slots|
    ensures |r| <= n
  {
    if n == 0 then [] else Collect(slots, n - 1) + Clause(slots[n - 1])
  }

  /** Every given slot becomes a clause. */
  lemma {:induction false} CollectHas(slots: seq<Slot>, n: nat, k: nat)
    requires k < n <= |slots| && slots[k].value.Some?
    ensures Assignment(slots[k].column, slots[k].value.value) in Collect(slots, n)
  {
    if k < n - 1 {
      CollectHas(slots, n - 1, k);
    }
  }

  /** Every clause comes from a given slot. */
  lemma {:induction false} CollectFrom(slots: seq<Slot>, n: nat)
    requires n <= |slots|
    ensures forall a :: a in Collect(slots, n) ==> exists k :: 0 <= k < n && slots[k] == Slot(a.column, Some(a.value))
  {
    if n > 0 {
      CollectFrom(slots, n - 1);
      forall a | a in Collect(slots, n)
        ensures exists k :: 0 <= k < n && slots[k] == Slot(a.column, Some(a.value))
      {
        if a !in Collect(slots, n - 1) {
          assert slots[n - 1] == Slot(a.column, Some(a.value));
        }
      }
    }
  }

  /** Slots with distinct columns give clauses with distinct columns. */
  lemma {:induction false} CollectDistinct(slots: seq<Slot>, n: nat)
    requires n <= |slots|
    requires forall i, j :: 0 <= i < j < |slots| ==> slots[i].column != slots[j].column
    ensures forall i, j :: 0 <= i < j < |Collect(slots, n)| ==> Collect(slots, n)[i].column != Collect(slots, n)[j].column
  {
    if n > 0 {
      CollectDistinct(slots, n - 1);
      CollectFrom(slots, n - 1);
      var c, r := Collect(slots, n - 1), Collect(slots, n);
      forall i, j | 0 <= i < j < |r| ensures r[i].column != r[j].column {
        if j >= |c| {
          assert r[i] == c[i] && r[i] in c;
        } else {
          assert r[i] == c[i] && r[j] == c[j];
        }
      }
    }
  }

  /** The clauses for the given fields, in the order the handler adds them. */
  function Assignments(current: JsonColumns, p: Payload): seq<Assignment>
  {
    Clause(TextSlot(StatusColumn, p.status))
    + Clause(TextSlot(NotesColumn, p.notes))
    + Clause(RentSlot(p.totalRent))
    + Clause(TextSlot(AddressColumn, p.address))
    + Clause(TextSlot(PublishedAtColumn, p.publishedAt))
    + Clause(JsonSlot(PropertyDetailsColumn, current.propertyDetails, p.propertyDetails))
    + Clause(JsonSlot(SourceStatsColumn, current.sourceStats, p.sourceStats))
    + Clause(JsonSlot(ContactPersonColumn, current.contactPerson, p.contactPerson))
    + Clause(JsonSlot(TextDescriptionsColumn, current.textDescriptions, p.textDescriptions))
    + Clause(JsonSlot(AiInsightsColumn, current.aiInsights, p.aiInsights))
  }

  /** The clauses are those of the column slots taken in order. */
  lemma AssignmentsCollect(current: JsonColumns, p: Payload)
    ensures Assignments(current, p) == Collect(Slots(current, p), 10)
  {
    var s := Slots(current, p);
    assert Collect(s, 0) == [];
    assert Collect(s, 1) == [] + Clause(s[0]);
    assert Collect(s, 2) == Collect(s, 1) + Clause(s[1]);
    assert Collect(s, 3) == Collect(s, 2) + Clause(s[2]);
    assert Collect(s, 4) == Collect(s, 3) + Clause(s[3]);
    assert Collect(s, 5) == Collect(s, 4) + Clause(s[4]);
    assert Collect(s, 6) == Collect(s, 5) + Clause(s[5]);
    assert Collect(s, 7) == Collect(s, 6) + Clause(s[6]);
    assert Collect(s, 8) == Collect(s, 7) + Clause(s[7]);
    assert Collect(s, 9) == Collect(s, 8) + Clause(s[8]);
    assert Collect(s, 10) == Collect(s, 9) + Clause(s[9]);
    assert [] + Clause(s[0]) == Clause(s[0]);
  }

  predicate NoFields(p: Payload)
  {
    p.status.None? && p.totalRent.None? && p.address.None? && p.publishedAt.None? && p.notes.None?
    && p.propertyDetails.None? && p.sourceStats.None? && p.contactPerson.None?
    && p.textDescriptions.None? && p.aiInsights.None?
  }

  /** There is a clause exactly when some field is given. */
  lemma AssignmentsEmpty(current: JsonColumns, p: Payload)
    ensures Assignments(current, p) == [] <==> NoFields(p)
  {
    var s := Slots(current, p);
    assert |Assignments(current, p)| == |Clause(s[0])| + |Clause(s[1])| + |Clause(s[2])| + |Clause(s[3])| + |Clause(s[4])|
                                       + |Clause(s[5])| + |Clause(s[6])| + |Clause(s[7])| + |Clause(s[8])| + |Clause(s[9])|;
  }

  /** A given JSON column's clause stores the patch merged into the stored value. */
  lemma JsonColumnIsMerged(current: JsonColumns, p: Payload)
    requires p.propertyDetails.Some?
    ensures Assignment(PropertyDetailsColumn, JsonValue(Merge(current.propertyDetails, p.propertyDetails.value)))
            in Assignments(current, p)
  {
    AssignmentsCollect(current, p);
    CollectHas(Slots(current, p), 10, 5);
  }

  /** The timestamp clause every executed update ends with. */
  const Stamp := Assignment(UpdatedAtColumn, DatabaseNow)

  /** A column no slot names gets no clause. */
  lemma {:induction false} CollectAvoids(slots: seq<Slot>, n: nat, column: string)
    requires n <= |slots|
    requires forall k :: 0 <= k < |slots| ==> slots[k].column != column
    ensures forall i :: 0 <= i < |Collect(slots, n)| ==> Collect(slots, n)[i].column != column
  {
    if n > 0 {
      CollectAvoids(slots, n - 1, column);
    }
  }

  /** No field clause sets the timestamp column, so the final stamp is its only assignment. */
  lemma StampSetOnce(current: JsonColumns, p: Payload)
    ensures forall i :: 0 <= i < |Assignments(current, p)| ==> Assignments(current, p)[i].column != UpdatedAtColumn
  {
    var s := Slots(current, p);
    forall k | 0 <= k < |s| ensures s[k].column != UpdatedAtColumn {
      assert s[k].column[0] != UpdatedAtColumn[0];
    }
    CollectAvoids(s, 10, UpdatedAtColumn);
    AssignmentsCollect(current, p);
  }

  /** No column is assigned twice. */
  lemma ColumnsDistinct(current: JsonColumns, p: Payload)
    ensures forall i, j :: 0 <= i < j < |Assignments(current, p)| ==>
              Assignments(current, p)[i].column != Assignments(current, p)[j].column
  {
    var s := Slots(current, p);
    forall i, j | 0 <= i < j < |s| ensures s[i].column != s[j].column {
      var cols := ["status", "notes", "total_rent", "address", "published_at", "property_details",
                   "source_stats", "contact_person", "text_descriptions", "ai_insights"];
      assert forall k :: 0 <= k < 10 ==> s[k].column == cols[k];
      assert cols[i] != cols[j] by { ColumnNamesDistinct(i, j); }
    }
    CollectDistinct(s, 10);
    AssignmentsCollect(current, p);
  }

  lemma ColumnNamesDistinct(i: nat, j: nat)
    requires i < j < 10
    ensures ["status", "notes", "total_rent", "address", "published_at", "property_details",
             "source_stats", "contact_person", "text_descriptions", "ai_insights"][i]
         != ["status", "notes", "total_rent", "address", "published_at", "property_details",
             "source_stats", "contact_person", "text_descriptions", "ai_insights"][j]
  {
  }

  /** One text-column block of the handler: bind the field when it is given and note the update. */
  method AddText(sets: seq<Assignment>, hasUpdates: bool, column: string, v: Option<string>)
    returns (sets': seq<Assignment>, hasUpdates': bool)
    ensures sets' == sets + Clause(TextSlot(column, v))
    ensures hasUpdates' == (hasUpdates || v.Some?)
  {
    sets', hasUpdates' := sets, hasUpdates;
    if v.Some? {
      sets' := sets' + [Assignment(column, TextValue(v.value))];
      hasUpdates' := true;
    }
  }

  /** The rent block: bind the total rent when it is given. */
  method AddRent(sets: seq<Assignment>, hasUpdates: bool, rent: Option<real>)
    returns (sets': seq<Assignment>, hasUpdates': bool)
    ensures sets' == sets + Clause(RentSlot(rent))
    ensures hasUpdates' == (hasUpdates || rent.Some?)
  {
    sets', hasUpdates' := sets, hasUpdates;
    if rent.Some? {
      sets' := sets' + [Assignment(TotalRentColumn, RealValue(rent.value))];
      hasUpdates' := true;
    }
  }

  /** One JSON-column block: merge the patch into the stored value and bind the result. */
  method AddJson(sets: seq<Assignment>, hasUpdates: bool, column: string, stored: Json, patch: Option<Json>)
    returns (sets': seq<Assignment>, hasUpdates': bool)
    ensures sets' == sets + Clause(JsonSlot(column, stored, patch))
    ensures hasUpdates' == (hasUpdates || patch.Some?)
  {
    sets', hasUpdates' := sets, hasUpdates;
    if patch.Some? {
      var merged := MergeInto(stored, patch.value);
      sets' := sets' + [Assignment(column, JsonValue(merged))];
      hasUpdates' := true;
    }
  }

  /**
   * The handler's plan: clauses are added field by field with a flag
   * recording that one was added; without any, the stored listing is kept.
   * An update that runs always ends by setting the timestamp.
   */
  method PlanUpdate(current: JsonColumns, p: Payload) returns (out: Outcome)
    ensures out.Unchanged? <==> NoFields(p)
    ensures out.Execute? ==> out.assignments == Assignments(current, p) + [Stamp]
  {
    var sets: seq<Assignment> := [];
    var hasUpdates := false;
    sets, hasUpdates := AddText(sets, hasUpdates, StatusColumn, p.status);
    sets, hasUpdates := AddText(sets, hasUpdates, NotesColumn, p.notes);
    sets, hasUpdates := AddRent(sets, hasUpdates, p.totalRent);
    sets, hasUpdates := AddText(sets, hasUpdates, AddressColumn, p.address);
    sets, hasUpdates := AddText(sets, hasUpdates, PublishedAtColumn, p.publishedAt);
    sets, hasUpdates := AddJson(sets, hasUpdates, PropertyDetailsColumn, current.propertyDetails, p.propertyDetails);
    sets, hasUpdates := AddJson(sets, hasUpdates, SourceStatsColumn, current.sourceStats, p.sourceStats);
    sets, hasUpdates := AddJson(sets, hasUpdates, ContactPersonColumn, current.contactPerson, p.contactPerson);
    sets, hasUpdates := AddJson(sets, hasUpdates, TextDescriptionsColumn, current.textDescriptions, p.textDescriptions);
    sets, hasUpdates := AddJson(sets, hasUpdates, AiInsightsColumn, current.aiInsights, p.aiInsights);
    assert [] + Clause(TextSlot(StatusColumn, p.status)) == Clause(TextSlot(StatusColumn, p.status));
    assert hasUpdates == !NoFields(p);
    if !hasUpdates {
      return Unchanged;
    }
    return Execute(sets + [Stamp]);
  }
}
