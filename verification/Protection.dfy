/**
 The fail-closed protected-data traversal over an object graph.  Mappings and sequences live
 in an explicit heap and may be shared or cyclic; the traversal keeps the objects on its
 current path in one mutable set, which it must leave as it found it.
 */
module Protection {
  import opened ObjectGraph

  /** A value a record can hold.  `Text` carries its normalized marker: stripped, case-folded. */
  datatype Value =
    | NoneValue
    | Boolean(flag: bool)
    | Text(marker: string)
    | Other
    | Ref(id: Id)

  datatype Field = Field(name: string, value: Value)

  datatype Node =
    | Mapping(fields: seq<Field>)
    | Sequence(items: seq<Value>)

  type Heap = map<Id, Node>

  const PROTECTED_SPLIT_NAMES: set<string> := {"holdout", "protected_holdout", "benchmark_holdout", "private_holdout"}
  const PROTECTED_ROLES: set<string> := {"holdout", "protected_holdout", "benchmark", "evaluation_only", "protected"}
  const PROTECTION_FIELDS: seq<string> :=
    ["protected", "target_split", "split", "source_split", "dataset_role", "role", "purpose",
     "evaluation_only", "benchmark"]
  const NESTED_PROTECTION_FIELDS: seq<string> := ["provenance", "metadata", "protection"]
  const TRUE_STRINGS: set<string> := {"true", "yes", "1", "protected"}
  const FALSE_STRINGS: set<string> := {"false", "no", "0"}
  const MARKER_SUBSTRINGS: seq<string> := ["holdout", "protected", "evaluation_only", "benchmark"]
  const OPTIONAL_STRING_FIELDS: set<string> :=
    {"target_split", "split", "source_split", "dataset_role", "role", "purpose"}
  const FLAG_FIELDS: set<string> := {"protected", "evaluation_only", "benchmark"}

  // ---------- One mapping ----------

  predicate Contains(text: string, part: string) {
    exists before, after :: 0 <= before <= after <= |text| && text[before..after] == part
  }

  predicate MarksProtected(marker: string) {
    marker !in FALSE_STRINGS &&
    (marker in TRUE_STRINGS || marker in PROTECTED_SPLIT_NAMES || marker in PROTECTED_ROLES
     || exists k :: 0 <= k < |MARKER_SUBSTRINGS| && Contains(marker, MARKER_SUBSTRINGS[k]))
  }

  predicate FieldMalformed(f: Field) {
    && f.name in PROTECTION_FIELDS
    && !(f.value.NoneValue? && f.name in OPTIONAL_STRING_FIELDS)
    && (match f.value
        case Boolean(_) => false
        case Text(marker) => f.name in FLAG_FIELDS && marker !in TRUE_STRINGS && marker !in FALSE_STRINGS
        case _ => true)
  }

  predicate FieldProtected(f: Field) {
    f.name in PROTECTION_FIELDS &&
    match f.value
    case Boolean(flag) => flag
    case Text(marker) => MarksProtected(marker)
    case _ => false
  }

  predicate Malformed(fields: seq<Field>) {
    exists k :: 0 <= k < |fields| && FieldMalformed(fields[k])
  }

  /** `mapping_is_protected`: malformed protection metadata counts as protected. */
  predicate MappingProtected(fields: seq<Field>) {
    Malformed(fields) || exists k :: 0 <= k < |fields| && FieldProtected(fields[k])
  }

  predicate IsMapping(h: Heap, v: Value) {
    v.Ref? && v.id in h && h[v.id].Mapping?
  }

  /** A nested block that is present must be a mapping or None. */
  predicate NestedBlockIllTyped(h: Heap, fields: seq<Field>) {
    exists k :: 0 <= k < |fields| && fields[k].name in NESTED_PROTECTION_FIELDS
                && !fields[k].value.NoneValue? && !IsMapping(h, fields[k].value)
  }

  function ValuesOf(node: Node): seq<Value> {
    match node
    case Mapping(fields) => seq(|fields|, k requires 0 <= k < |fields| => fields[k].value)
    case Sequence(items) => items
  }

  /** Every reference leads to an object. */
  ghost predicate Closed(h: Heap) {
    forall id :: id in h ==> forall v :: v in ValuesOf(h[id]) ==> v.Ref? ==> v.id in h
  }

  predicate IllTypedOrMalformed(h: Heap, fields: seq<Field>) {
    Malformed(fields) || NestedBlockIllTyped(h, fields)
  }

  // ---------- The graphs the two traversals follow ----------

  /** Objects referring to objects; a mapping with protected, malformed or ill-typed metadata
      is bad. */
  function RecordGraph(h: Heap): Graph {
    Graph(map a | a in h :: (set b | b in h && Ref(b) in ValuesOf(h[a])),
          set a | a in h && h[a].Mapping? && (MappingProtected(h[a].fields) || NestedBlockIllTyped(h, h[a].fields)))
  }

  /** b is a mapping held by a directly, or as an item of a sequence that a holds. */
  predicate HoldsMapping(h: Heap, a: Id, b: Id)
    requires a in h
  {
    IsMapping(h, Ref(b)) &&
    (Ref(b) in ValuesOf(h[a])
     || exists s :: s in h && Ref(s) in ValuesOf(h[a]) && h[s].Sequence? && Ref(b) in h[s].items)
  }

  /** Mappings only, looking into sequences one level deep. */
  function MetadataGraph(h: Heap): Graph {
    Graph(map a | a in h :: (set b | b in h && HoldsMapping(h, a, b)),
          set a | a in h && h[a].Mapping? && IllTypedOrMalformed(h, h[a].fields))
  }

  // ---------- The traversals ----------

  class Traversal {
    var seen: set<Id>

    constructor ()
      ensures seen == {}
    {
      seen := {};
    }

    /** Decides whether `record` is incriminated given the current path, and restores the path. */
    method RecordIsProtected(h: Heap, record: Value) returns (bad: bool)
      requires Closed(h) && (record.Ref? ==> record.id in h)
      modifies this
      ensures seen == old(seen)
      ensures bad == (!IsMapping(h, record) || Incriminated(RecordGraph(h), seen, record.id))
      decreases |h.Keys - seen|, 1
    {
      if !IsMapping(h, record) {
        return true;
      }
      var identity := record.id;
      if identity in seen {
        AtFaultItself(RecordGraph(h), seen, identity);
        return true;
      }
      var fields := h[identity].fields;
      seen := seen + {identity};
      assert h.Keys - old(seen) == h.Keys - seen + {identity};
      if MappingProtected(fields) || NestedBlockIllTyped(h, fields) {
        bad := true;
        AtFaultItself(RecordGraph(h), old(seen), identity);
      } else {
        bad := AnyProtected(h, identity);
        ChildrenDecide(RecordGraph(h), old(seen), identity);
      }
      assert seen - {identity} == old(seen);
      seen := seen - {identity};
    }

    method NestedValueIsProtected(h: Heap, value: Value) returns (bad: bool)
      requires Closed(h) && (value.Ref? ==> value.id in h)
      modifies this
      ensures seen == old(seen)
      ensures bad == (value.Ref? && Incriminated(RecordGraph(h), seen, value.id))
      decreases |h.Keys - seen|, 2
    {
      if IsMapping(h, value) {
        bad := RecordIsProtected(h, value);
      } else if value.Ref? {
        var identity := value.id;
        if identity in seen {
          AtFaultItself(RecordGraph(h), seen, identity);
          return true;
        }
        seen := seen + {identity};
        assert h.Keys - old(seen) == h.Keys - seen + {identity};
        bad := AnyProtected(h, identity);
        ChildrenDecide(RecordGraph(h), old(seen), identity);
        assert seen - {identity} == old(seen);
        seen := seen - {identity};
      } else {
        bad := false;
      }
    }

    /** `any(...)` over the values of one object, stopping at the first hit. */
    method AnyProtected(h: Heap, identity: Id) returns (bad: bool)
      requires Closed(h) && identity in h
      modifies this
      ensures seen == old(seen)
      ensures bad <==> exists b :: Edge(RecordGraph(h), identity, b) && Incriminated(RecordGraph(h), seen, b)
      decreases |h.Keys - seen|, 3
    {
      var values := ValuesOf(h[identity]);
      for k := 0 to |values|
        invariant seen == old(seen)
        invariant forall r :: 0 <= r < k && values[r].Ref? ==> !Incriminated(RecordGraph(h), seen, values[r].id)
      {
        assert values[k] in values;
        var hit := NestedValueIsProtected(h, values[k]);
        if hit {
          assert Edge(RecordGraph(h), identity, values[k].id);
          return true;
        }
      }
      return false;
    }

    method MetadataIsMalformed(h: Heap, record: Value) returns (bad: bool)
      requires Closed(h) && (record.Ref? ==> record.id in h)
      modifies this
      ensures seen == old(seen)
      ensures bad == (!IsMapping(h, record) || Incriminated(MetadataGraph(h), seen, record.id))
      decreases |h.Keys - seen|, 1
    {
      if !IsMapping(h, record) {
        return true;
      }
      var identity := record.id;
      var fields := h[identity].fields;
      if Malformed(fields) || identity in seen {
        AtFaultItself(MetadataGraph(h), seen, identity);
        return true;
      }
      seen := seen + {identity};
      assert h.Keys - old(seen) == h.Keys - seen + {identity};
      if NestedBlockIllTyped(h, fields) {
        bad := true;
        AtFaultItself(MetadataGraph(h), old(seen), identity);
      } else {
        bad := AnyMalformed(h, identity);
        ChildrenDecide(MetadataGraph(h), old(seen), identity);
      }
      assert seen - {identity} == old(seen);
      seen := seen - {identity};
    }

    /** The loop over a mapping's values. */
    method AnyMalformed(h: Heap, identity: Id) returns (bad: bool)
      requires Closed(h) && identity in h && h[identity].Mapping?
      modifies this
      ensures seen == old(seen)
      ensures bad <==> exists b :: Edge(MetadataGraph(h), identity, b) && Incriminated(MetadataGraph(h), seen, b)
      decreases |h.Keys - seen|, 3
    {
      var values := ValuesOf(h[identity]);
      for k := 0 to |values|
        invariant seen == old(seen)
        invariant forall r :: 0 <= r < k ==> ValueClean(h, seen, values[r])
      {
        assert values[k] in values;
        var nested := values[k];
        if IsMapping(h, nested) {
          var hit := MetadataIsMalformed(h, nested);
          if hit {
            assert Edge(MetadataGraph(h), identity, nested.id);
            return true;
          }
        } else if nested.Ref? {
          var hit := AnyItemMalformed(h, identity, nested.id);
          if hit {
            return true;
          }
        }
      }
      assert forall b :: Edge(MetadataGraph(h), identity, b) ==> !Incriminated(MetadataGraph(h), seen, b);
      return false;
    }

    method AnyItemMalformed(h: Heap, identity: Id, sequence: Id) returns (bad: bool)
      requires Closed(h) && identity in h && sequence in h && h[sequence].Sequence?
      requires Ref(sequence) in ValuesOf(h[identity])
      modifies this
      ensures seen == old(seen)
      ensures !bad ==> ValueClean(h, seen, Ref(sequence))
      ensures bad ==> exists b :: Edge(MetadataGraph(h), identity, b) && Incriminated(MetadataGraph(h), seen, b)
      decreases |h.Keys - seen|, 2
    {
      var items := h[sequence].items;
      for k := 0 to |items|
        invariant seen == old(seen)
        invariant forall r :: 0 <= r < k && IsMapping(h, items[r]) ==>
                    !Incriminated(MetadataGraph(h), seen, items[r].id)
      {
        if IsMapping(h, items[k]) {
          var hit := MetadataIsMalformed(h, items[k]);
          if hit {
            assert HoldsMapping(h, identity, items[k].id);
            assert Edge(MetadataGraph(h), identity, items[k].id);
            return true;
          }
        }
      }
      return false;
    }
  }

  /** No mapping that the value holds, directly or one sequence deep, is incriminated. */
  ghost predicate ValueClean(h: Heap, seen: set<Id>, value: Value) {
    && (IsMapping(h, value) ==> !Incriminated(MetadataGraph(h), seen, value.id))
    && (value.Ref? && value.id in h && h[value.id].Sequence? ==>
          forall item :: item in h[value.id].items && IsMapping(h, item) ==>
            !Incriminated(MetadataGraph(h), seen, item.id))
  }

  // ---------- What a cleared record looks like, field by field ----------

  /** The part stands in the text from position k on. */
  ghost predicate StandsAt(part: string, text: string, k: nat) {
    k + |part| <= |text| && forall i :: 0 <= i < |part| ==> text[k + i] == part[i]
  }

  ghost predicate Mentions(text: string, part: string) {
    exists k: nat :: StandsAt(part, text, k)
  }

  /** The texts that protect: those that mention a mark, and three short ones. */
  ghost predicate Marked(text: string) {
    || Mentions(text, "holdout") || Mentions(text, "protected")
    || Mentions(text, "evaluation_only") || Mentions(text, "benchmark")
    || text == "true" || text == "yes" || text == "1"
  }

  ghost predicate NamesASplitOrRole(f: Field) {
    || f.name == "target_split" || f.name == "split" || f.name == "source_split"
    || f.name == "dataset_role" || f.name == "role" || f.name == "purpose"
  }

  ghost predicate IsAFlag(f: Field) {
    f.name == "protected" || f.name == "evaluation_only" || f.name == "benchmark"
  }

  ghost predicate IsABlock(f: Field) {
    f.name == "provenance" || f.name == "metadata" || f.name == "protection"
  }

  /** a holds b: as the value of a field, or as an item. */
  ghost predicate Holds(h: Heap, a: Id, b: Id) {
    a in h && b in h &&
    match h[a]
    case Mapping(fields) => exists k :: 0 <= k < |fields| && fields[k].value == Ref(b)
    case Sequence(items) => exists k :: 0 <= k < |items| && items[k] == Ref(b)
  }

  /** The protection check steps to whatever an object holds; the metadata check steps from a mapping to
      the mappings it holds, and to those in the sequences it holds. */
  lemma StepsExactly(h: Heap, a: Id, b: Id)
    ensures Edge(RecordGraph(h), a, b) <==> Holds(h, a, b)
    ensures a in h && h[a].Mapping? ==>
              (Edge(MetadataGraph(h), a, b) <==>
                 && b in h && h[b].Mapping?
                 && (Holds(h, a, b) || exists s :: Holds(h, a, s) && h[s].Sequence? && Holds(h, s, b)))
  {
    if a in h {
      HoldsValue(h, a, b);
      forall s | s in h
        ensures Ref(s) in ValuesOf(h[a]) <==> Holds(h, a, s)
        ensures h[s].Sequence? && b in h ==> (Ref(b) in h[s].items <==> Holds(h, s, b))
      {
        HoldsValue(h, a, s);
        HoldsValue(h, s, b);
      }
      hide ValuesOf, Holds;
    }
  }

  lemma HoldsValue(h: Heap, a: Id, b: Id)
    requires a in h
    ensures b in h ==> (Ref(b) in ValuesOf(h[a]) <==> Holds(h, a, b))
    ensures h[a].Sequence? && b in h ==> (Ref(b) in h[a].items <==> Holds(h, a, b))
  {
    var values := ValuesOf(h[a]);
    if Ref(b) in values {
      var k :| 0 <= k < |values| && values[k] == Ref(b);
    }
    if Holds(h, a, b) && h[a].Mapping? {
      var k :| 0 <= k < |h[a].fields| && h[a].fields[k].value == Ref(b);
      assert values[k] == Ref(b);
    }
  }

  /** A field that gives no reason to protect its mapping. */
  ghost predicate Harmless(h: Heap, f: Field) {
    && (NamesASplitOrRole(f) ==>
          f.value == NoneValue || f.value == Boolean(false) || (f.value.Text? && !Marked(f.value.marker)))
    && (IsAFlag(f) ==>
          f.value == Boolean(false) || f.value == Text("false") || f.value == Text("no") || f.value == Text("0"))
    && (IsABlock(f) ==> f.value == NoneValue || IsMapping(h, f.value))
  }

  lemma ContainsIsMentions(text: string, part: string)
    ensures Contains(text, part) <==> Mentions(text, part)
  {
    if Contains(text, part) {
      var before, after :| 0 <= before <= after <= |text| && text[before..after] == part;
      forall i | 0 <= i < |part| ensures text[before + i] == part[i] {
        assert text[before..after][i] == part[i];
      }
      assert StandsAt(part, text, before);
    }
    if Mentions(text, part) {
      var k: nat :| StandsAt(part, text, k);
      assert text[k..k + |part|] == part;
    }
  }

  /** Every name of a protected split or role mentions a mark, and no false word does, so the lists of
      names add nothing to the marks. */
  lemma MarksExactly(text: string)
    ensures MarksProtected(text) <==> Marked(text)
  {
    forall k | 0 <= k < |MARKER_SUBSTRINGS|
      ensures Contains(text, MARKER_SUBSTRINGS[k]) <==> Mentions(text, MARKER_SUBSTRINGS[k])
    {
      ContainsIsMentions(text, MARKER_SUBSTRINGS[k]);
    }
    hide Contains;
    assert MARKER_SUBSTRINGS[0] == "holdout" && MARKER_SUBSTRINGS[1] == "protected";
    assert MARKER_SUBSTRINGS[2] == "evaluation_only" && MARKER_SUBSTRINGS[3] == "benchmark";
    NamesMention(text);
  }

  lemma NamesMention(text: string)
    ensures text in PROTECTED_SPLIT_NAMES || text in PROTECTED_ROLES || text == "protected" ==>
              || Mentions(text, "holdout") || Mentions(text, "protected")
              || Mentions(text, "evaluation_only") || Mentions(text, "benchmark")
    ensures text in FALSE_STRINGS ==> !Marked(text)
  {
    if text == "holdout" { assert StandsAt("holdout", text, 0); }
    if text == "protected_holdout" { assert StandsAt("holdout", text, 10); }
    if text == "benchmark_holdout" { assert StandsAt("holdout", text, 10); }
    if text == "private_holdout" { assert StandsAt("holdout", text, 8); }
    if text == "benchmark" { assert StandsAt("benchmark", text, 0); }
    if text == "evaluation_only" { assert StandsAt("evaluation_only", text, 0); }
    if text == "protected" { assert StandsAt("protected", text, 0); }
  }

  lemma HarmlessField(h: Heap, f: Field)
    ensures Harmless(h, f) <==>
            && !FieldMalformed(f) && !FieldProtected(f)
            && (f.name in NESTED_PROTECTION_FIELDS ==> f.value == NoneValue || IsMapping(h, f.value))
  {
    if f.value.Text? {
      MarksExactly(f.value.marker);
      NamesMention(f.value.marker);
    }
    hide MarksProtected, Mentions, IsMapping;
  }

  lemma HarmlessExactly(h: Heap, fields: seq<Field>)
    ensures !MappingProtected(fields) && !NestedBlockIllTyped(h, fields) <==>
            forall k :: 0 <= k < |fields| ==> Harmless(h, fields[k])
  {
    forall k | 0 <= k < |fields|
      ensures Harmless(h, fields[k]) <==>
              && !FieldMalformed(fields[k]) && !FieldProtected(fields[k])
              && (fields[k].name in NESTED_PROTECTION_FIELDS ==>
                    fields[k].value == NoneValue || IsMapping(h, fields[k].value))
    {
      HarmlessField(h, fields[k]);
    }
    hide Harmless, FieldMalformed, FieldProtected, IsMapping;
  }

  ghost predicate HarmlessObject(h: Heap, id: Id) {
    id in h && (h[id].Mapping? ==> forall k :: 0 <= k < |h[id].fields| ==> Harmless(h, h[id].fields[k]))
  }

  /** No cycle can be reached from root, and every field of every mapping that can be reached is
      harmless. */
  ghost predicate Cleared(h: Heap, root: Id) {
    forall id :: Reaches(RecordGraph(h), root, id) ==> HarmlessObject(h, id) && !Leads(RecordGraph(h), id, id)
  }

  /** `record_is_protected`.  A record is cleared exactly when it is a mapping from which neither a
      cycle nor a field that marks its mapping can be reached; sharing without a cycle is no reason. */
  method IsProtected(h: Heap, record: Value) returns (bad: bool)
    requires Closed(h) && (record.Ref? ==> record.id in h)
    ensures !bad <==> IsMapping(h, record) && Cleared(h, record.id)
  {
    hide RecordGraph, Cleared;
    var traversal := new Traversal();
    bad := traversal.RecordIsProtected(h, record);
    if IsMapping(h, record) {
      ClearedIffIncriminated(h, record.id);
    }
  }

  lemma ClearedIffIncriminated(h: Heap, root: Id)
    requires root in h
    ensures Cleared(h, root) <==> !Incriminated(RecordGraph(h), {}, root)
  {
    var g := RecordGraph(h);
    IncriminatedIsFaulty(g, root);
    forall id | Reaches(g, root, id) ensures HarmlessObject(h, id) <==> id !in g.bad {
      ReachedObjectExists(h, root, id);
      if h[id].Mapping? {
        HarmlessExactly(h, h[id].fields);
      }
      hide Harmless, MappingProtected, NestedBlockIllTyped;
    }
    hide RecordGraph, HarmlessObject;
  }

  /** Marked data does not pass: a record from which a mapping can be reached that has, in one of the
      nine protection fields, the flag true or a text with a mark anywhere in it, is not cleared. */
  lemma MarkedIsNotCleared(h: Heap, root: Id, id: Id, f: Field, before: string, part: string, after: string)
    requires Reaches(RecordGraph(h), root, id) && id in h && h[id].Mapping? && f in h[id].fields
    requires NamesASplitOrRole(f) || IsAFlag(f)
    requires part == "holdout" || part == "protected" || part == "evaluation_only" || part == "benchmark"
    requires || f.value == Boolean(true) || f.value == Text("true") || f.value == Text("yes") || f.value == Text("1")
             || f.value == Text(before + part + after)
    ensures !Cleared(h, root)
  {
    assert StandsAt(part, before + part + after, |before|);
    assert !Harmless(h, f) by {
      if f.value == Text(before + part + after) {
        assert Mentions(f.value.marker, part);
      }
    }
    assert !HarmlessObject(h, id);
  }

  lemma ReachedObjectExists(h: Heap, root: Id, id: Id)
    requires Reaches(RecordGraph(h), root, id)
    ensures id in h
  {
    var walk :| WalkFromTo(RecordGraph(h), walk, root, id);
    if |walk| > 1 {
      assert Linked(RecordGraph(h), walk, |walk| - 1);
    }
  }

  /** A field that is not malformed, whatever it marks. */
  ghost predicate WellFormed(h: Heap, f: Field) {
    && (NamesASplitOrRole(f) ==> f.value == NoneValue || f.value.Boolean? || f.value.Text?)
    && (IsAFlag(f) ==>
          || f.value.Boolean?
          || f.value == Text("true") || f.value == Text("yes") || f.value == Text("1") || f.value == Text("protected")
          || f.value == Text("false") || f.value == Text("no") || f.value == Text("0"))
    && (IsABlock(f) ==> f.value == NoneValue || IsMapping(h, f.value))
  }

  lemma WellFormedExactly(h: Heap, fields: seq<Field>)
    ensures !IllTypedOrMalformed(h, fields) <==> forall k :: 0 <= k < |fields| ==> WellFormed(h, fields[k])
  {
    forall k | 0 <= k < |fields|
      ensures WellFormed(h, fields[k]) <==>
              && !FieldMalformed(fields[k])
              && (fields[k].name in NESTED_PROTECTION_FIELDS ==>
                    fields[k].value == NoneValue || IsMapping(h, fields[k].value))
    {
    }
    hide WellFormed, FieldMalformed, IsMapping;
  }

  ghost predicate WellFormedObject(h: Heap, id: Id) {
    id in h && (h[id].Mapping? ==> forall k :: 0 <= k < |h[id].fields| ==> WellFormed(h, h[id].fields[k]))
  }

  /** Along the steps of the metadata check no cycle can be reached from root, and every field of every
      mapping that can be reached is well-formed. */
  ghost predicate Sound(h: Heap, root: Id) {
    forall id :: Reaches(MetadataGraph(h), root, id) ==> WellFormedObject(h, id) && !Leads(MetadataGraph(h), id, id)
  }

  lemma SoundIffNotFaulty(h: Heap, root: Id)
    requires root in h
    ensures Sound(h, root) <==> !Faulty(MetadataGraph(h), root)
  {
    var g := MetadataGraph(h);
    forall id | Reaches(g, root, id) ensures WellFormedObject(h, id) <==> id !in g.bad {
      var walk :| WalkFromTo(g, walk, root, id);
      assert |walk| > 1 ==> Linked(g, walk, |walk| - 1);
      if h[id].Mapping? {
        WellFormedExactly(h, h[id].fields);
      }
      hide WellFormed, IllTypedOrMalformed;
    }
    hide MetadataGraph, WellFormedObject;
  }

  /** `protection_metadata_is_malformed`. */
  method IsMalformed(h: Heap, record: Value) returns (bad: bool)
    requires Closed(h) && (record.Ref? ==> record.id in h)
    ensures bad == (!IsMapping(h, record) || Faulty(MetadataGraph(h), record.id))
    ensures !bad <==> IsMapping(h, record) && Sound(h, record.id)
  {
    hide MetadataGraph, Sound;
    var traversal := new Traversal();
    bad := traversal.MetadataIsMalformed(h, record);
    if IsMapping(h, record) {
      IncriminatedIsFaulty(MetadataGraph(h), record.id);
      SoundIffNotFaulty(h, record.id);
    }
  }

  /** Every step of the metadata check can be followed along references. */
  lemma StepsAreFollowed(h: Heap, bad: set<Id>)
    requires Closed(h)
    ensures Simulates(MetadataGraph(h), Graph(RecordGraph(h).succ, bad))
  {
    var g, g2 := MetadataGraph(h), Graph(RecordGraph(h).succ, bad);
    forall a, b | Edge(g, a, b) ensures Leads(g2, a, b) {
      if Ref(b) in ValuesOf(h[a]) {
        EdgeLeads(g2, a, b);
      } else {
        var s :| s in h && Ref(s) in ValuesOf(h[a]) && h[s].Sequence? && Ref(b) in h[s].items;
        EdgeLeads(g2, a, s);
        EdgeLeads(g2, s, b);
        LeadsTransitive(g2, a, s, b);
      }
    }
  }

  /** Malformed metadata anywhere the metadata check looks makes the record protected. */
  lemma MalformedImpliesProtected(h: Heap, root: Id)
    requires Closed(h) && root in h && Faulty(MetadataGraph(h), root)
    ensures !Cleared(h, root)
  {
    var g, g2 := MetadataGraph(h), RecordGraph(h);
    StepsAreFollowed(h, g2.bad);
    FaultySimulated(g, g2, root);
    IncriminatedIsFaulty(g2, root);
    ClearedIffIncriminated(h, root);
  }

  /** A record holding a sequence, of a sequence, of a mapping with a malformed field. */
  ghost predicate DeeplyMalformed(h: Heap) {
    h == map[0 := Mapping([Field("pages", Ref(1))]), 1 := Sequence([Ref(2)]), 2 := Sequence([Ref(3)]),
             3 := Mapping([Field("protected", Other)])]
  }

  /** The converse fails: a malformed mapping two sequences deep is protected but escapes the
      metadata check. */
  lemma DeepMalformationEscapesMetadataCheck(h: Heap)
    requires DeeplyMalformed(h)
    ensures Closed(h) && !Cleared(h, 0) && !Faulty(MetadataGraph(h), 0)
  {
    hide *;
    DeepShape(h);
    DeepMappingIsBad(h);
    DeepChainIsFaulty(h);
    IncriminatedIsFaulty(RecordGraph(h), 0);
    ClearedIffIncriminated(h, 0);
    DeepMetadataHasNoEdges(h);
    NoEdgesNoFault(MetadataGraph(h), 0);
  }

  lemma DeepShape(h: Heap)
    requires DeeplyMalformed(h)
    ensures Closed(h) && 0 in h && 1 in h && 2 in h && 3 in h
    ensures Ref(1) in ValuesOf(h[0]) && Ref(2) in ValuesOf(h[1]) && Ref(3) in ValuesOf(h[2])
  {
    assert ValuesOf(h[0]) == [Ref(1)] && ValuesOf(h[1]) == [Ref(2)] && ValuesOf(h[2]) == [Ref(3)];
  }

  lemma DeepMappingIsBad(h: Heap)
    requires DeeplyMalformed(h)
    ensures 3 in RecordGraph(h).bad
  {
    assert FieldMalformed(h[3].fields[0]);
  }

  lemma DeepMetadataHasNoEdges(h: Heap)
    requires DeeplyMalformed(h)
    ensures 0 !in MetadataGraph(h).bad && forall b :: !Edge(MetadataGraph(h), 0, b)
  {
    assert ValuesOf(h[0]) == [Ref(1)];
    assert forall b :: b in h ==> !HoldsMapping(h, 0, b);
  }

  lemma DeepChainIsFaulty(h: Heap)
    requires 0 in h && 1 in h && 2 in h && 3 in h && 3 in RecordGraph(h).bad
    requires Ref(1) in ValuesOf(h[0]) && Ref(2) in ValuesOf(h[1]) && Ref(3) in ValuesOf(h[2])
    ensures Faulty(RecordGraph(h), 0)
  {
    var g := RecordGraph(h);
    EdgeLeads(g, 0, 1);
    EdgeLeads(g, 1, 2);
    EdgeLeads(g, 2, 3);
    LeadsTransitive(g, 0, 1, 2);
    LeadsTransitive(g, 0, 2, 3);
    assert Reaches(g, 0, 3);
  }

  lemma NoEdgesNoFault(g: Graph, root: Id)
    requires root !in g.bad && forall b :: !Edge(g, root, b)
    ensures !Faulty(g, root)
  {
    IncriminatedIsFaulty(g, root);
    if Incriminated(g, {}, root) {
      IncriminatedThroughChild(g, {}, root);
    }
  }
}
