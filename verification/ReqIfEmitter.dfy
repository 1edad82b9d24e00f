/**
 `emit` of `cli/src/reqif.rs`, event by event, proved to write the document of `ReqIf`.

 Each writer appends the events of one part and is proved to give the flattened tree of that part,
 so the events of an export are well nested.
 */
module ReqIfEmitter {
  import opened Outcome
  import Dotted
  import opened Order
  import opened ReqIfValidator
  import opened ReqIf

  // ----- Collecting ------------------------------------------------------------------

  lemma ObjectsOfSnoc(elements: map<string, IrNode>, ids: seq<string>, id: string)
    requires id in elements && forall n :: n in ids ==> n in elements
    ensures ObjectsOf(elements, ids + [id])
            == ObjectsOf(elements, ids) + if IsRequirement(elements[id]) then [ObjectOf(id, elements[id])] else []
  {
    assert (ids + [id])[..|ids|] == ids;
  }

  method CollectObjects(elements: map<string, IrNode>) returns (objects: seq<Object>)
    ensures objects == Objects(elements)
  {
    var ids := SortedNames(elements.Keys);
    assert forall id :: id in ids ==> id in Elements(ids);
    objects := GatherObjects(elements, ids);
    objects := SortBy(objects, ObjectBefore);
  }

  method GatherObjects(elements: map<string, IrNode>, ids: seq<string>) returns (objects: seq<Object>)
    requires forall id :: id in ids ==> id in elements
    ensures objects == ObjectsOf(elements, ids)
  {
    objects := [];
    for i := 0 to |ids|
      invariant objects == ObjectsOf(elements, ids[..i])
    {
      ObjectsOfSnoc(elements, ids[..i], ids[i]);
      assert ids[..i] + [ids[i]] == ids[..i + 1];
      if IsRequirement(elements[ids[i]]) {
        objects := objects + [ObjectOf(ids[i], elements[ids[i]])];
      }
    }
    assert ids[..|ids|] == ids;
  }

  lemma RelationsOfSnoc(elements: map<string, IrNode>, edges: seq<IrEdge>, e: IrEdge)
    ensures RelationsOf(elements, edges + [e])
            == RelationsOf(elements, edges) + if Selected(elements, e) then [RelationOf(e)] else []
  {
    assert (edges + [e])[..|edges|] == edges;
  }

  method CollectRelations(elements: map<string, IrNode>, edges: seq<IrEdge>) returns (relations: seq<Relation>)
    ensures relations == Relations(elements, edges)
  {
    var reqIds := set id | id in elements && IsRequirement(elements[id]);
    var localNames := set id | id in reqIds :: Dotted.LastSegment(id);
    forall id
      ensures MatchesReq(elements, id) <==> id in reqIds || id in localNames
    {
      if id in reqIds {
        assert IsReq(elements, id);
      }
    }
    relations := [];
    for i := 0 to |edges|
      invariant relations == RelationsOf(elements, edges[..i])
    {
      var e := edges[i];
      RelationsOfSnoc(elements, edges[..i], e);
      assert edges[..i] + [e] == edges[..i + 1];
      if e.src != "" && e.dst != "" && e.kind in TRACE_KINDS {
        if (e.src in reqIds || e.src in localNames) && (e.dst in reqIds || e.dst in localNames) {
          relations := relations + [RelationOf(e)];
        }
      }
    }
    assert edges[..|edges|] == edges;
    relations := SortBy(relations, RelationBefore);
  }

  // ----- Writing ---------------------------------------------------------------------

  lemma FlattenLeaf(name: Tag, text: string)
    ensures Flatten(Leaf(name, text)) == [Start(name, []), Text(text), End(name)]
  {
    FlattenText([Characters(text)]);
  }

  lemma FlattenRef(id: string)
    ensures Flatten(Ref(id)) == [Start(SpecObjectRef, []), Text(id), End(SpecObjectRef)]
  {
    FlattenText([Characters(id)]);
  }

  lemma FlattenOne(t: Tree)
    ensures FlattenAll([t]) == Flatten(t)
  {
    assert [t][1..] == [];
    assert Flatten(t) + [] == Flatten(t);
  }

  lemma FlattenSnoc(ts: seq<Tree>, t: Tree)
    ensures FlattenAll(ts + [t]) == FlattenAll(ts) + Flatten(t)
  {
    FlattenConcat(ts, [t]);
    FlattenOne(t);
  }

  lemma FlattenWrap(name: Tag, t: Tree)
    ensures Flatten(Wrap(name, t)) == [Start(name, [])] + Flatten(t) + [End(name)]
  {
    FlattenOne(t);
  }

  method WriteValue(title: Title, value: string, uuid: UuidTable) returns (events: seq<Event>)
    ensures events == Flatten(ValueTree(title, value, uuid))
  {
    var definition, reference := DefinitionOf, DefinitionRef;
    events := [Start(AttributeValue, [(TheValue, value)])];
    ghost var begin := events;
    events := events + [Start(definition, [])];
    events := events + [Start(reference, [])];
    events := events + [Text(uuid(title))];
    events := events + [End(reference)];
    events := events + [End(definition)];
    ghost var inner := Wrap(DefinitionOf, Leaf(DefinitionRef, uuid(title)));
    FlattenLeaf(DefinitionRef, uuid(title));
    FlattenWrap(DefinitionOf, Leaf(DefinitionRef, uuid(title)));
    FlattenOne(inner);
    assert events == begin + Flatten(inner);
    events := events + [End(AttributeValue)];
  }

  method WriteValues(f: Fields, uuid: UuidTable) returns (events: seq<Event>)
    ensures events == FlattenAll(Values(f, uuid))
  {
    ghost var done := [ValueTree(TextTitle, f.text, uuid)];
    events := WriteValue(TextTitle, f.text, uuid);
    FlattenOne(done[0]);
    var more := WriteOptional(ThresholdTitle, f.threshold, uuid);
    FlattenConcat(done, Optional(ThresholdTitle, f.threshold, uuid));
    done := done + Optional(ThresholdTitle, f.threshold, uuid);
    events := events + more;
    more := WriteOptional(OperatorTitle, f.operator, uuid);
    FlattenConcat(done, Optional(OperatorTitle, f.operator, uuid));
    done := done + Optional(OperatorTitle, f.operator, uuid);
    events := events + more;
    more := WriteOptional(MethodTitle, f.accepts, uuid);
    FlattenConcat(done, Optional(MethodTitle, f.accepts, uuid));
    events := events + more;
  }

  method WriteOptional(title: Title, value: Option<string>, uuid: UuidTable) returns (events: seq<Event>)
    ensures events == FlattenAll(Optional(title, value, uuid))
  {
    events := [];
    if value.Some? {
      events := WriteValue(title, value.value, uuid);
      FlattenOne(ValueTree(title, value.value, uuid));
    }
  }

  method WriteReference(outer: Tag, id: string) returns (events: seq<Event>)
    ensures events == Flatten(Wrap(outer, Ref(id)))
  {
    events := [Start(outer, [])];
    events := events + [Start(SpecObjectRef, [])];
    events := events + [Text(id)];
    events := events + [End(SpecObjectRef)];
    events := events + [End(outer)];
    FlattenRef(id);
    FlattenWrap(outer, Ref(id));
  }

  method WriteType(name: Tag, id: string) returns (events: seq<Event>)
    ensures events == Flatten(Wrap(TypeOf, Leaf(name, id)))
  {
    events := [Start(TypeOf, [])];
    events := events + [Start(name, [])];
    events := events + [Text(id)];
    events := events + [End(name)];
    events := events + [End(TypeOf)];
    FlattenLeaf(name, id);
    FlattenWrap(TypeOf, Leaf(name, id));
  }

  /** Two children in one element. */
  lemma FlattenPair(a: Tree, b: Tree)
    ensures FlattenAll([a, b]) == Flatten(a) + Flatten(b)
  {
    assert [a, b] == [a] + [b];
    FlattenOne(a);
    FlattenSnoc([a], b);
  }

  method WriteObject(o: Object, uuid: UuidTable) returns (events: seq<Event>)
    ensures events == Flatten(ObjectTree(o, uuid))
  {
    ghost var kids := ObjectTree(o, uuid).kids;
    events := [Start(SpecObject, [(IdentifierKey, o.identifier), (LongName, o.longName)])];
    var part := WriteType(SpecObjectTypeRef, uuid(RequirementType));
    ghost var begin, first := events, part;
    events := events + part;
    var values := WriteValues(o.fields, uuid);
    ghost var second := [Start(ValuesOf, [])] + values + [End(ValuesOf)];
    events := events + [Start(ValuesOf, [])];
    events := events + values;
    events := events + [End(ValuesOf)];
    FlattenPair(kids[0], kids[1]);
    assert kids == [kids[0], kids[1]] && second == Flatten(kids[1]);
    assert events == begin + (first + second);
    events := events + [End(SpecObject)];
  }

  method WriteRelation(r: Relation, uuid: UuidTable) returns (events: seq<Event>)
    ensures events == Flatten(RelationTree(r, uuid))
  {
    ghost var kids := RelationTree(r, uuid).kids;
    events := [Start(SpecRelation, [(IdentifierKey, r.identifier)])];
    ghost var begin := events;
    var a := WriteType(SpecRelationTypeRef, uuid(RelationTypeInfo(r.kind).0));
    events := events + a;
    var b := WriteReference(Source, r.source);
    events := events + b;
    var c := WriteReference(Target, r.target);
    events := events + c;
    FlattenPair(kids[0], kids[1]);
    FlattenSnoc([kids[0], kids[1]], kids[2]);
    assert kids == [kids[0], kids[1]] + [kids[2]];
    assert events == begin + (a + b + c);
    events := events + [End(SpecRelation)];
  }

  method WriteHierarchy(o: Object) returns (events: seq<Event>)
    ensures events == Flatten(HierarchyTree(o))
  {
    var inner := WriteReference(ObjectOfHierarchy, o.identifier);
    events := [Start(SpecHierarchy, [])];
    events := events + inner;
    events := events + [End(SpecHierarchy)];
    FlattenWrap(SpecHierarchy, Wrap(ObjectOfHierarchy, Ref(o.identifier)));
  }

  lemma AppendObject(objects: seq<Object>, i: nat, uuid: UuidTable, events: seq<Event>, part: seq<Event>)
    requires i < |objects| && events == FlattenAll(ObjectTrees(objects[..i], uuid))
    requires part == Flatten(ObjectTree(objects[i], uuid))
    ensures events + part == FlattenAll(ObjectTrees(objects[..i + 1], uuid))
  {
    var front, all := objects[..i], objects[..i + 1];
    assert all[..|all| - 1] == front && all[|all| - 1] == objects[i];
    FlattenSnoc(ObjectTrees(front, uuid), ObjectTree(objects[i], uuid));
  }

  lemma AppendRelation(relations: seq<Relation>, i: nat, uuid: UuidTable, events: seq<Event>, part: seq<Event>)
    requires i < |relations| && events == FlattenAll(RelationTrees(relations[..i], uuid))
    requires part == Flatten(RelationTree(relations[i], uuid))
    ensures events + part == FlattenAll(RelationTrees(relations[..i + 1], uuid))
  {
    var front, all := relations[..i], relations[..i + 1];
    assert all[..|all| - 1] == front && all[|all| - 1] == relations[i];
    FlattenSnoc(RelationTrees(front, uuid), RelationTree(relations[i], uuid));
  }

  lemma AppendHierarchy(objects: seq<Object>, i: nat, events: seq<Event>, part: seq<Event>)
    requires i < |objects| && events == FlattenAll(HierarchyTrees(objects[..i]))
    requires part == Flatten(HierarchyTree(objects[i]))
    ensures events + part == FlattenAll(HierarchyTrees(objects[..i + 1]))
  {
    var front, all := objects[..i], objects[..i + 1];
    assert all[..|all| - 1] == front && all[|all| - 1] == objects[i];
    FlattenSnoc(HierarchyTrees(front), HierarchyTree(objects[i]));
  }

  lemma FlattenTypesSnoc(kinds: seq<string>, kind: string, uuid: UuidTable)
    ensures FlattenAll(RelationTypes(kinds + [kind], uuid))
            == FlattenAll(RelationTypes(kinds, uuid)) + Flatten(RelationType(kind, uuid))
  {
    assert (kinds + [kind])[..|kinds|] == kinds;
    FlattenSnoc(RelationTypes(kinds, uuid), RelationType(kind, uuid));
  }

  method WriteObjectList(objects: seq<Object>, uuid: UuidTable) returns (events: seq<Event>)
    ensures events == FlattenAll(ObjectTrees(objects, uuid))
  {
    events := [];
    for i := 0 to |objects|
      invariant events == FlattenAll(ObjectTrees(objects[..i], uuid))
    {
      var part := WriteObject(objects[i], uuid);
      AppendObject(objects, i, uuid, events, part);
      events := events + part;
    }
    assert objects[..|objects|] == objects;
  }

  method WriteObjects(objects: seq<Object>, uuid: UuidTable) returns (events: seq<Event>)
    ensures events == Flatten(ObjectsTree(objects, uuid))
  {
    var list := WriteObjectList(objects, uuid);
    events := [Start(SpecObjects, [])] + list + [End(SpecObjects)];
  }

  method WriteRelationList(relations: seq<Relation>, uuid: UuidTable) returns (events: seq<Event>)
    ensures events == FlattenAll(RelationTrees(relations, uuid))
  {
    events := [];
    for i := 0 to |relations|
      invariant events == FlattenAll(RelationTrees(relations[..i], uuid))
    {
      var part := WriteRelation(relations[i], uuid);
      AppendRelation(relations, i, uuid, events, part);
      events := events + part;
    }
    assert relations[..|relations|] == relations;
  }

  method WriteRelations(relations: seq<Relation>, uuid: UuidTable) returns (events: seq<Event>)
    ensures events == Flatten(RelationsTree(relations, uuid))
  {
    var list := WriteRelationList(relations, uuid);
    events := [Start(SpecRelations, [])] + list + [End(SpecRelations)];
  }

  method WriteHierarchyList(objects: seq<Object>) returns (events: seq<Event>)
    ensures events == FlattenAll(HierarchyTrees(objects))
  {
    events := [];
    for i := 0 to |objects|
      invariant events == FlattenAll(HierarchyTrees(objects[..i]))
    {
      var part := WriteHierarchy(objects[i]);
      AppendHierarchy(objects, i, events, part);
      events := events + part;
    }
    assert objects[..|objects|] == objects;
  }

  method WriteChildren(objects: seq<Object>) returns (events: seq<Event>)
    ensures events == FlattenAll(Children(objects))
  {
    events := [];
    if objects != [] {
      var list := WriteHierarchyList(objects);
      events := [Start(ChildrenOf, [])] + list + [End(ChildrenOf)];
      FlattenOne(Children(objects)[0]);
    }
  }

  lemma FlattenFour(a: Tree, b: Tree, c: Tree, d: Tree)
    ensures FlattenAll([a, b, c, d]) == Flatten(a) + Flatten(b) + Flatten(c) + Flatten(d)
  {
    FlattenPair(a, b);
    FlattenSnoc([a, b], c);
    FlattenSnoc([a, b] + [c], d);
    assert [a, b] + [c] + [d] == [a, b, c, d];
  }

  method WriteDefinition(id: string, longName: string) returns (events: seq<Event>)
    ensures events == Flatten(Definition(id, longName))
  {
    events := [Empty(AttributeDefinition, [(IdentifierKey, id), (LongName, longName)])];
  }

  method WriteObjectType(uuid: UuidTable) returns (events: seq<Event>)
    ensures events == Flatten(ObjectType(uuid))
  {
    ghost var inner := ObjectType(uuid).kids[0];
    events := [Start(SpecObjectType, [(IdentifierKey, uuid(RequirementType)),
                                                  (LongName, "RequirementType")])];
    ghost var begin := events;
    events := events + [Start(SpecAttributes, [])];
    var text := WriteDefinition(uuid(TextTitle), "ReqText");
    var threshold := WriteDefinition(uuid(ThresholdTitle), "Threshold");
    var operator := WriteDefinition(uuid(OperatorTitle), "Operator");
    var accepts := WriteDefinition(uuid(MethodTitle), "VerificationMethod");
    events := events + text;
    events := events + threshold;
    events := events + operator;
    events := events + accepts;
    FlattenFour(inner.kids[0], inner.kids[1], inner.kids[2], inner.kids[3]);
    assert inner.kids == [inner.kids[0], inner.kids[1], inner.kids[2], inner.kids[3]];
    events := events + [End(SpecAttributes)];
    FlattenOne(inner);
    assert events == begin + Flatten(inner);
    events := events + [End(SpecObjectType)];
  }

  method WriteTypeList(kinds: seq<string>, uuid: UuidTable) returns (events: seq<Event>)
    ensures events == FlattenAll(RelationTypes(kinds, uuid))
  {
    events := [];
    ghost var seen := [];
    for i := 0 to |kinds|
      invariant seen == kinds[..i] && events == FlattenAll(RelationTypes(seen, uuid))
    {
      FlattenTypesSnoc(seen, kinds[i], uuid);
      events := events + [Empty(SpecRelationType, RelationType(kinds[i], uuid).attributes)];
      seen := seen + [kinds[i]];
    }
    assert seen == kinds;
  }

  lemma FlattenElement(name: Tag, first: Tree, rest: seq<Tree>)
    ensures Flatten(Element(name, [], [first] + rest))
            == [Start(name, [])] + Flatten(first) + FlattenAll(rest) + [End(name)]
  {
    FlattenOne(first);
    FlattenConcat([first], rest);
  }

  method WriteTypes(relations: seq<Relation>, uuid: UuidTable) returns (events: seq<Event>)
    ensures events == Flatten(TypesTree(relations, uuid))
  {
    var kinds := Dedup(Sort(KindsOf(relations)));
    var first := WriteObjectType(uuid);
    var types := WriteTypeList(kinds, uuid);
    events := [Start(SpecTypes, [])];
    events := events + first;
    events := events + types;
    events := events + [End(SpecTypes)];
    FlattenElement(SpecTypes, ObjectType(uuid), RelationTypes(kinds, uuid));
  }

  method WriteSpecifications(objects: seq<Object>, uuid: UuidTable) returns (events: seq<Event>)
    ensures events == Flatten(Wrap(Specifications, SpecificationTree(objects, uuid)))
  {
    var children := WriteChildren(objects);
    events := [Start(Specifications, [])];
    events := events + [Start(Specification, [(IdentifierKey, uuid(SpecificationTitle)),
                                              (LongName, "DEAL Requirements")])];
    events := events + children;
    events := events + [End(Specification)];
    ghost var specification := Flatten(SpecificationTree(objects, uuid));
    assert events == [Start(Specifications, [])] + specification;
    events := events + [End(Specifications)];
    FlattenWrap(Specifications, SpecificationTree(objects, uuid));
  }

  method WriteCore(objects: seq<Object>, relations: seq<Relation>, uuid: UuidTable) returns (events: seq<Event>)
    ensures events == Flatten(Core(CoreTrees(objects, relations, uuid)))
  {
    var a := WriteTypes(relations, uuid);
    var b := WriteObjects(objects, uuid);
    var c := WriteRelations(relations, uuid);
    var d := WriteSpecifications(objects, uuid);
    ghost var core := CoreTrees(objects, relations, uuid);
    FlattenFour(core[0], core[1], core[2], core[3]);
    assert core == [core[0], core[1], core[2], core[3]];
    events := [Start(CoreContent, [])] + (a + b + c + d) + [End(CoreContent)];
  }

  method WriteHeader(uuid: UuidTable) returns (events: seq<Event>)
    ensures events == Flatten(Header([HeaderTree(uuid)]))
  {
    FlattenOne(HeaderTree(uuid));
    events := [Start(TheHeader, [])];
    events := events + [Empty(ReqIfHeader, HeaderTree(uuid).attributes)];
    events := events + [End(TheHeader)];
  }

  /** `emit` */
  method Emit(ir: Ir, uuid: UuidTable) returns (r: Result<seq<Event>>)
    ensures r.Err? <==> ir.elements.None? || ir.edges.None?
    ensures r.Ok? ==> r.value == Emitted(ir.elements.value, ir.edges.value, uuid)
  {
    if ir.elements.None? || ir.edges.None? {
      return Err;
    }
    var objects := CollectObjects(ir.elements.value);
    var relations := CollectRelations(ir.elements.value, ir.edges.value);
    var header := WriteHeader(uuid);
    var core := WriteCore(objects, relations, uuid);
    FlattenPair(Header([HeaderTree(uuid)]), Core(CoreTrees(objects, relations, uuid)));
    return Ok([Start(ReqIf, RootAttributes())] + (header + core) + [End(ReqIf)]);
  }

  /** What the comments promise of an export: both ends of every exported edge resolve. */
  ghost predicate EdgesResolve(elements: map<string, IrNode>, edges: seq<IrEdge>) {
    forall e :: e in edges && Selected(elements, e) ==> Resolves(elements, e.src) && Resolves(elements, e.dst)
  }

  /** `emit_from_bytes` up to its gate: what is written is let through exactly when it is accepted. */
  method EmitChecked(ir: Ir, uuid: UuidTable) returns (r: Result<seq<Event>>)
    ensures r.Ok? <==>
              && ir.elements.Some? && ir.edges.Some?
              && Accepts(Emitted(ir.elements.value, ir.edges.value, uuid))
    ensures r.Ok? ==> r.value == Emitted(ir.elements.value, ir.edges.value, uuid)
    ensures ir.elements.Some? && ir.edges.Some? && PlainIds(ir.elements.value, ir.edges.value) ==>
              (r.Ok? <==> EdgesResolve(ir.elements.value, ir.edges.value))
  {
    var events :- Emit(ir, uuid);
    var violations := ValidateReqif(events);
    GateMeans(ir.elements.value, ir.edges.value, uuid);
    if violations != [] {
      return Err;
    }
    return Ok(events);
  }

  lemma GateMeans(elements: map<string, IrNode>, edges: seq<IrEdge>, uuid: UuidTable)
    ensures PlainIds(elements, edges) ==>
              (Accepts(Emitted(elements, edges, uuid)) <==> EdgesResolve(elements, edges))
  {
    if PlainIds(elements, edges) {
      EmittedIsAccepted(elements, edges, uuid);
    }
  }
}
