/**
 The ReqIF emitter of `cli/src/reqif.rs`, up to the events it writes, checked against the
 validator that guards it.

 `Emitted` is the document as a tree; the method writes its events one by one.
 */
module ReqIf {
  import opened Outcome
  import opened Chars
  import opened Order
  import opened ReqIfValidator
  import Dotted

  // ----- The IR ---------------------------------------------------------------------

  /** What `node_to_spec_object` finds in a payload. */
  datatype Fields = Fields(text: string, threshold: Option<string>, operator: Option<string>, accepts: Option<string>)

  datatype IrNode = IrNode(kind: string, fields: Fields)
  datatype IrEdge = IrEdge(src: string, dst: string, kind: string)

  /** A part that is missing, or not of the right shape, is `None`. */
  datatype Ir = Ir(elements: Option<map<string, IrNode>>, edges: Option<seq<IrEdge>>)

  /** What `reqif_uuid` is asked to name. */
  datatype Title =
    | HeaderTitle | SpecificationTitle | RequirementType | TextTitle | ThresholdTitle | OperatorTitle | MethodTitle
    | Satisfies | Traces | DerivesFrom | AllocatedTo | Trace

  /** `reqif_uuid`: the text of a UUID is never empty. */
  ghost predicate NeverEmpty(f: Title -> string) {
    forall title :: f(title) != ""
  }

  type UuidTable = f: Title -> string | NeverEmpty(f) witness title => "0"

  // ----- Identifiers ----------------------------------------------------------------

  function Underscored(path: string): (r: string)
    ensures |r| == |path|
    ensures forall i :: 0 <= i < |r| ==> r[i] == if path[i] == '.' then '_' else path[i]
  {
    seq(|path|, i requires 0 <= i < |path| => if path[i] == '.' then '_' else path[i])
  }

  function DealIdToReqifId(path: string): string {
    "DEAL_" + Underscored(path)
  }

  /** Two paths get the same identifier exactly when they differ only in dots and underscores. */
  lemma SameReqifId(a: string, b: string)
    ensures DealIdToReqifId(a) == DealIdToReqifId(b) <==>
              && |a| == |b|
              && forall i :: 0 <= i < |a| ==> a[i] == b[i] || (a[i] in "._" && b[i] in "._")
  {
    assert DealIdToReqifId(a)[5..] == Underscored(a) && DealIdToReqifId(b)[5..] == Underscored(b);
    if Underscored(a) == Underscored(b) {
      forall i | 0 <= i < |a|
        ensures a[i] == b[i] || (a[i] in "._" && b[i] in "._")
      {
        assert Underscored(a)[i] == Underscored(b)[i];
      }
    }
  }

  // ----- Objects and relations ------------------------------------------------------

  datatype Object = Object(identifier: string, longName: string, fields: Fields)
  datatype Relation = Relation(identifier: string, source: string, target: string, kind: string)

  predicate IsRequirement(node: IrNode) {
    node.kind == "requirement_def" || node.kind == "need_def"
  }

  predicate IsReq(elements: map<string, IrNode>, id: string) {
    id in elements && IsRequirement(elements[id])
  }

  /** A requirement has this id, or this id as the last segment of its own. */
  ghost predicate MatchesReq(elements: map<string, IrNode>, id: string) {
    exists n :: IsReq(elements, n) && (n == id || Dotted.LastSegment(n) == id)
  }

  const TRACE_KINDS := ["satisfies", "traces", "derives_from", "allocated_to"]

  /** The edges that become relations. */
  ghost predicate Selected(elements: map<string, IrNode>, e: IrEdge) {
    && e.src != "" && e.dst != "" && e.kind in TRACE_KINDS
    && MatchesReq(elements, e.src) && MatchesReq(elements, e.dst)
  }

  function ObjectOf(id: string, node: IrNode): Object {
    Object(DealIdToReqifId(id), Dotted.LastSegment(id), node.fields)
  }

  function RelationOf(e: IrEdge): Relation {
    Relation("DEAL_REL_" + Underscored(e.src) + "_" + Underscored(e.dst),
             DealIdToReqifId(e.src), DealIdToReqifId(e.dst), e.kind)
  }

  predicate ObjectBefore(a: Object, b: Object) {
    Less(a.identifier, b.identifier)
  }

  predicate RelationBefore(a: Relation, b: Relation) {
    Less(a.identifier, b.identifier)
  }

  ghost function ObjectsOf(elements: map<string, IrNode>, ids: seq<string>): seq<Object>
    requires forall id :: id in ids ==> id in elements
  {
    if ids == [] then []
    else
      var last := ids[|ids| - 1];
      ObjectsOf(elements, ids[..|ids| - 1])
      + if IsRequirement(elements[last]) then [ObjectOf(last, elements[last])] else []
  }

  ghost function RelationsOf(elements: map<string, IrNode>, edges: seq<IrEdge>): seq<Relation> {
    if edges == [] then []
    else
      var last := edges[|edges| - 1];
      RelationsOf(elements, edges[..|edges| - 1]) + if Selected(elements, last) then [RelationOf(last)] else []
  }

  ghost function Objects(elements: map<string, IrNode>): seq<Object> {
    var ids := Listing(elements.Keys);
    assert forall id :: id in ids ==> id in Elements(ids);
    SortBy(ObjectsOf(elements, ids), ObjectBefore)
  }

  ghost function Relations(elements: map<string, IrNode>, edges: seq<IrEdge>): seq<Relation> {
    SortBy(RelationsOf(elements, edges), RelationBefore)
  }

  lemma {:induction false} ObjectsOfHold(elements: map<string, IrNode>, ids: seq<string>, o: Object)
    requires forall id :: id in ids ==> id in elements
    ensures o in ObjectsOf(elements, ids) <==>
              exists id :: id in ids && IsReq(elements, id) && o == ObjectOf(id, elements[id])
  {
    if ids == [] {
    } else {
      var front := ids[..|ids| - 1];
      ObjectsOfHold(elements, front, o);
      assert ids == front + [ids[|ids| - 1]];
    }
  }

  lemma {:induction false} RelationsOfHold(elements: map<string, IrNode>, edges: seq<IrEdge>, r: Relation)
    ensures r in RelationsOf(elements, edges) <==>
              exists e :: e in edges && Selected(elements, e) && r == RelationOf(e)
  {
    if edges == [] {
    } else {
      var front := edges[..|edges| - 1];
      RelationsOfHold(elements, front, r);
      assert edges == front + [edges[|edges| - 1]];
    }
  }

  lemma ObjectsHold(elements: map<string, IrNode>, o: Object)
    ensures o in Objects(elements) <==> exists id :: IsReq(elements, id) && o == ObjectOf(id, elements[id])
  {
    var ids := Listing(elements.Keys);
    assert forall id :: id in ids <==> id in Elements(ids);
    ObjectsOfHold(elements, ids, o);
    SortByHolds(ObjectsOf(elements, ids), ObjectBefore, o);
  }

  lemma RelationsHold(elements: map<string, IrNode>, edges: seq<IrEdge>, r: Relation)
    ensures r in Relations(elements, edges) <==> exists e :: e in edges && Selected(elements, e) && r == RelationOf(e)
  {
    RelationsOfHold(elements, edges, r);
    SortByHolds(RelationsOf(elements, edges), RelationBefore, r);
  }

  // ----- The document ---------------------------------------------------------------

  /** The title and the long name of the type for a trace kind. */
  function RelationTypeInfo(kind: string): (Title, string) {
    if kind == "satisfies" then (Satisfies, "SatisfiesRelation")
    else if kind == "traces" then (Traces, "TracesRelation")
    else if kind == "derives_from" then (DerivesFrom, "DerivesFromRelation")
    else if kind == "allocated_to" then (AllocatedTo, "AllocatedToRelation")
    else (Trace, "TraceRelation")
  }

  function Leaf(name: Tag, text: string): Tree {
    Element(name, [], [Characters(text)])
  }

  function Wrap(name: Tag, t: Tree): Tree {
    Element(name, [], [t])
  }

  function Ref(id: string): Tree {
    Element(SpecObjectRef, [], [Characters(id)])
  }

  function Definition(id: string, longName: string): Tree {
    SelfClosing(AttributeDefinition, [(IdentifierKey, id), (LongName, longName)])
  }

  function ObjectType(uuid: UuidTable): Tree {
    Element(SpecObjectType,
            [(IdentifierKey, uuid(RequirementType)), (LongName, "RequirementType")],
            [Element(SpecAttributes, [],
                     [Definition(uuid(TextTitle), "ReqText"),
                      Definition(uuid(ThresholdTitle), "Threshold"),
                      Definition(uuid(OperatorTitle), "Operator"),
                      Definition(uuid(MethodTitle), "VerificationMethod")])])
  }

  function RelationType(kind: string, uuid: UuidTable): Tree {
    SelfClosing(SpecRelationType,
                [(IdentifierKey, uuid(RelationTypeInfo(kind).0)), (LongName, RelationTypeInfo(kind).1)])
  }

  function ValueTree(title: Title, value: string, uuid: UuidTable): Tree {
    Element(AttributeValue, [(TheValue, value)],
            [Wrap(DefinitionOf, Leaf(DefinitionRef, uuid(title)))])
  }

  function Optional(title: Title, value: Option<string>, uuid: UuidTable): seq<Tree> {
    if value.Some? then [ValueTree(title, value.value, uuid)] else []
  }

  function Values(f: Fields, uuid: UuidTable): seq<Tree> {
    [ValueTree(TextTitle, f.text, uuid)]
    + Optional(ThresholdTitle, f.threshold, uuid)
    + Optional(OperatorTitle, f.operator, uuid)
    + Optional(MethodTitle, f.accepts, uuid)
  }

  function ObjectTree(o: Object, uuid: UuidTable): Tree {
    Element(SpecObject, [(IdentifierKey, o.identifier), (LongName, o.longName)],
            [Wrap(TypeOf, Leaf(SpecObjectTypeRef, uuid(RequirementType))),
             Element(ValuesOf, [], Values(o.fields, uuid))])
  }

  function RelationOfType(r: Relation, typeId: string): Tree {
    Element(SpecRelation, [(IdentifierKey, r.identifier)],
            [Wrap(TypeOf, Leaf(SpecRelationTypeRef, typeId)),
             Wrap(Source, Ref(r.source)),
             Wrap(Target, Ref(r.target))])
  }

  function RelationTree(r: Relation, uuid: UuidTable): Tree {
    RelationOfType(r, uuid(RelationTypeInfo(r.kind).0))
  }

  function HierarchyTree(o: Object): Tree {
    Wrap(SpecHierarchy, Wrap(ObjectOfHierarchy, Ref(o.identifier)))
  }

  function KindsOf(relations: seq<Relation>): seq<string> {
    seq(|relations|, i requires 0 <= i < |relations| => relations[i].kind)
  }

  function HeaderTree(uuid: UuidTable): Tree {
    SelfClosing(ReqIfHeader,
                [(IdentifierKey, uuid(HeaderTitle)), (CreationTime, "2026-01-01T00:00:00.000+00:00"),
                 (ToolId, "deal"), (Version, "1.2")])
  }

  function RelationTypes(kinds: seq<string>, uuid: UuidTable): seq<Tree> {
    if kinds == [] then []
    else RelationTypes(kinds[..|kinds| - 1], uuid) + [RelationType(kinds[|kinds| - 1], uuid)]
  }

  function ObjectTrees(objects: seq<Object>, uuid: UuidTable): seq<Tree> {
    if objects == [] then []
    else ObjectTrees(objects[..|objects| - 1], uuid) + [ObjectTree(objects[|objects| - 1], uuid)]
  }

  function RelationTrees(relations: seq<Relation>, uuid: UuidTable): seq<Tree> {
    if relations == [] then []
    else RelationTrees(relations[..|relations| - 1], uuid) + [RelationTree(relations[|relations| - 1], uuid)]
  }

  function HierarchyTrees(objects: seq<Object>): seq<Tree> {
    if objects == [] then []
    else HierarchyTrees(objects[..|objects| - 1]) + [HierarchyTree(objects[|objects| - 1])]
  }

  /** One type for requirements, and one for each trace kind that occurs. */
  function TypesTree(relations: seq<Relation>, uuid: UuidTable): Tree {
    Element(SpecTypes, [],
            [ObjectType(uuid)] + RelationTypes(Dedup(Sort(KindsOf(relations))), uuid))
  }

  function ObjectsTree(objects: seq<Object>, uuid: UuidTable): Tree {
    Element(SpecObjects, [], ObjectTrees(objects, uuid))
  }

  function RelationsTree(relations: seq<Relation>, uuid: UuidTable): Tree {
    Element(SpecRelations, [], RelationTrees(relations, uuid))
  }

  function Children(objects: seq<Object>): seq<Tree> {
    if objects == [] then [] else [Element(ChildrenOf, [], HierarchyTrees(objects))]
  }

  function SpecificationTree(objects: seq<Object>, uuid: UuidTable): Tree {
    Element(Specification, [(IdentifierKey, uuid(SpecificationTitle)), (LongName, "DEAL Requirements")],
            Children(objects))
  }

  function CoreTrees(objects: seq<Object>, relations: seq<Relation>, uuid: UuidTable): seq<Tree> {
    [TypesTree(relations, uuid), ObjectsTree(objects, uuid), RelationsTree(relations, uuid),
     Wrap(Specifications, SpecificationTree(objects, uuid))]
  }

  function RootAttributes(): Attributes {
    [(Xmlns, NAMESPACE)]
  }

  function DocumentTree(objects: seq<Object>, relations: seq<Relation>, uuid: UuidTable): Tree {
    Document(RootAttributes(), [HeaderTree(uuid)], CoreTrees(objects, relations, uuid))
  }

  /** The events of the document for an IR. */
  ghost function Emitted(elements: map<string, IrNode>, edges: seq<IrEdge>, uuid: UuidTable): seq<Event> {
    Flatten(DocumentTree(Objects(elements), Relations(elements, edges), uuid))
  }

  // ----- What the document declares and refers to -------------------------------------

  /** A tree that may stand in a document, with what it declares and what it refers to. */
  ghost predicate Holds(t: Tree, ids: set<string>, refs: seq<string>) {
    Content(t) && Ids(t) == ids && Refs(t) == refs
  }

  ghost predicate AllHold(ts: seq<Tree>, ids: set<string>, refs: seq<string>) {
    ContentAll(ts) && IdsAll(ts) == ids && RefsAll(ts) == refs
  }

  lemma NoneHold()
    ensures AllHold([], {}, [])
  {
  }

  lemma ConsHolds(t: Tree, ids: set<string>, refs: seq<string>, ts: seq<Tree>,
                  moreIds: set<string>, moreRefs: seq<string>)
    requires Holds(t, ids, refs) && AllHold(ts, moreIds, moreRefs)
    ensures AllHold([t] + ts, ids + moreIds, refs + moreRefs)
  {
    assert ([t] + ts)[1..] == ts;
  }

  lemma {:induction false} ConcatHolds(a: seq<Tree>, ids: set<string>, refs: seq<string>, b: seq<Tree>,
                                       moreIds: set<string>, moreRefs: seq<string>)
    requires AllHold(a, ids, refs) && AllHold(b, moreIds, moreRefs)
    ensures AllHold(a + b, ids + moreIds, refs + moreRefs)
  {
    if a == [] {
      assert a + b == b && ids + moreIds == moreIds && refs + moreRefs == moreRefs;
    } else {
      ConcatHolds(a[1..], IdsAll(a[1..]), RefsAll(a[1..]), b, moreIds, moreRefs);
      ConsHolds(a[0], Ids(a[0]), Refs(a[0]), a[1..] + b, IdsAll(a[1..]) + moreIds, RefsAll(a[1..]) + moreRefs);
      assert [a[0]] + (a[1..] + b) == a + b;
      assert Refs(a[0]) + (RefsAll(a[1..]) + moreRefs) == refs + moreRefs;
    }
  }

  lemma OneHolds(t: Tree, ids: set<string>, refs: seq<string>)
    requires Holds(t, ids, refs)
    ensures AllHold([t], ids, refs)
  {
    NoneHold();
    ConsHolds(t, ids, refs, [], {}, []);
    assert [t] + [] == [t] && ids + {} == ids && refs + [] == refs;
  }

  lemma ElementHolds(name: Tag, attributes: Attributes, kids: seq<Tree>, ids: set<string>, refs: seq<string>)
    requires AllHold(kids, ids, refs) && Fit(name, attributes) && name != SpecObjectRef
    ensures Holds(Element(name, attributes, kids), OwnIds(name, attributes) + ids, refs)
  {
  }

  /** Elements the validator has nothing to say about. */
  predicate IsOther(name: Tag) {
    && !name.ReqIf? && !name.TheHeader? && !name.CoreContent? && !name.SpecObjects? && !name.SpecObjectRef?
    && !MustBeIdentified(name)
  }

  lemma OtherHolds(name: Tag, attributes: Attributes, kids: seq<Tree>, ids: set<string>, refs: seq<string>)
    requires AllHold(kids, ids, refs) && IsOther(name)
    ensures Holds(Element(name, attributes, kids), ids, refs)
  {
    ElementHolds(name, attributes, kids, ids, refs);
    assert {} + ids == ids;
  }

  lemma WrapHolds(name: Tag, t: Tree, ids: set<string>, refs: seq<string>)
    requires Holds(t, ids, refs) && IsOther(name)
    ensures Holds(Wrap(name, t), ids, refs)
  {
    OneHolds(t, ids, refs);
    OtherHolds(name, [], [t], ids, refs);
  }

  lemma LeafHolds(name: Tag, text: string)
    requires IsOther(name)
    ensures Holds(Leaf(name, text), {}, [])
  {
    OneHolds(Characters(text), {}, []);
    OtherHolds(name, [], [Characters(text)], {}, []);
  }

  /** An identifier that a reference element carries unchanged. */
  predicate Carried(id: string) {
    id != "" && Trimmed(id)
  }

  lemma RefHolds(id: string)
    requires Carried(id)
    ensures Holds(Ref(id), {}, [id])
  {
    ReferenceDeclaresNothing(Ref(id));
  }

  lemma ValueHolds(title: Title, value: string, uuid: UuidTable)
    ensures Holds(ValueTree(title, value, uuid), {}, [])
  {
    var leaf := Leaf(DefinitionRef, uuid(title));
    LeafHolds(DefinitionRef, uuid(title));
    WrapHolds(DefinitionOf, leaf, {}, []);
    OneHolds(Wrap(DefinitionOf, leaf), {}, []);
    OtherHolds(AttributeValue, [(TheValue, value)], [Wrap(DefinitionOf, leaf)], {}, []);
  }

  lemma OptionalHolds(title: Title, value: Option<string>, uuid: UuidTable)
    ensures AllHold(Optional(title, value, uuid), {}, [])
  {
    if value.Some? {
      ValueHolds(title, value.value, uuid);
      OneHolds(ValueTree(title, value.value, uuid), {}, []);
    }
  }

  lemma InertConcat(a: seq<Tree>, b: seq<Tree>)
    requires AllHold(a, {}, []) && AllHold(b, {}, [])
    ensures AllHold(a + b, {}, [])
  {
    var noIds: set<string>, noRefs: seq<string> := {}, [];
    assert noIds + noIds == noIds && noRefs + noRefs == noRefs;
    ConcatHolds(a, noIds, noRefs, b, noIds, noRefs);
  }

  lemma ValuesHold(f: Fields, uuid: UuidTable)
    ensures AllHold(Values(f, uuid), {}, [])
  {
    var first := [ValueTree(TextTitle, f.text, uuid)];
    var second := Optional(ThresholdTitle, f.threshold, uuid);
    var third := Optional(OperatorTitle, f.operator, uuid);
    ValueHolds(TextTitle, f.text, uuid);
    OneHolds(first[0], {}, []);
    OptionalHolds(ThresholdTitle, f.threshold, uuid);
    OptionalHolds(OperatorTitle, f.operator, uuid);
    OptionalHolds(MethodTitle, f.accepts, uuid);
    InertConcat(first, second);
    InertConcat(first + second, third);
    InertConcat(first + second + third, Optional(MethodTitle, f.accepts, uuid));
  }

  lemma ObjectKidsHold(o: Object, uuid: UuidTable)
    ensures AllHold(ObjectTree(o, uuid).kids, {}, [])
  {
    var leaf := Leaf(SpecObjectTypeRef, uuid(RequirementType));
    var values := Element(ValuesOf, [], Values(o.fields, uuid));
    LeafHolds(SpecObjectTypeRef, uuid(RequirementType));
    WrapHolds(TypeOf, leaf, {}, []);
    ValuesHold(o.fields, uuid);
    OtherHolds(ValuesOf, [], Values(o.fields, uuid), {}, []);
    OneHolds(Wrap(TypeOf, leaf), {}, []);
    OneHolds(values, {}, []);
    InertConcat([Wrap(TypeOf, leaf)], [values]);
    assert [Wrap(TypeOf, leaf)] + [values] == ObjectTree(o, uuid).kids;
  }

  lemma ObjectHolds(o: Object, uuid: UuidTable)
    requires o.identifier != ""
    ensures Holds(ObjectTree(o, uuid), {o.identifier}, [])
  {
    var attributes := [(IdentifierKey, o.identifier), (LongName, o.longName)];
    ObjectKidsHold(o, uuid);
    ElementHolds(SpecObject, attributes, ObjectTree(o, uuid).kids, {}, []);
    assert {o.identifier} + {} == {o.identifier};
  }

  lemma ThreeHold(a: Tree, b: Tree, c: Tree, bRef: string, cRef: string)
    requires Holds(a, {}, []) && Holds(b, {}, [bRef]) && Holds(c, {}, [cRef])
    ensures AllHold([a, b, c], {}, [bRef, cRef])
  {
    OneHolds(c, {}, [cRef]);
    ConsHolds(b, {}, [bRef], [c], {}, [cRef]);
    ConsHolds(a, {}, [], [b] + [c], {} + {}, [bRef] + [cRef]);
    assert [a] + ([b] + [c]) == [a, b, c] && [] + ([bRef] + [cRef]) == [bRef, cRef];
  }

  lemma WrappedRefHolds(name: Tag, id: string)
    requires Carried(id) && IsOther(name)
    ensures Holds(Wrap(name, Ref(id)), {}, [id])
  {
    RefHolds(id);
    WrapHolds(name, Ref(id), {}, [id]);
  }

  lemma RelationKidsHold(r: Relation, typeId: string)
    requires Carried(r.source) && Carried(r.target)
    ensures AllHold(RelationOfType(r, typeId).kids, {}, [r.source, r.target])
  {
    var a := Wrap(TypeOf, Leaf(SpecRelationTypeRef, typeId));
    var b, c := Wrap(Source, Ref(r.source)), Wrap(Target, Ref(r.target));
    LeafHolds(SpecRelationTypeRef, typeId);
    WrapHolds(TypeOf, Leaf(SpecRelationTypeRef, typeId), {}, []);
    WrappedRefHolds(Source, r.source);
    WrappedRefHolds(Target, r.target);
    ThreeHold(a, b, c, r.source, r.target);
    assert RelationOfType(r, typeId).kids == [a, b, c];
  }

  lemma RelationOfTypeHolds(r: Relation, typeId: string)
    requires r.identifier != "" && Carried(r.source) && Carried(r.target)
    ensures Holds(RelationOfType(r, typeId), {}, [r.source, r.target])
  {
    RelationKidsHold(r, typeId);
    ElementHolds(SpecRelation, [(IdentifierKey, r.identifier)], RelationOfType(r, typeId).kids,
                 {}, [r.source, r.target]);
  }

  lemma RelationHolds(r: Relation, uuid: UuidTable)
    requires r.identifier != "" && Carried(r.source) && Carried(r.target)
    ensures Holds(RelationTree(r, uuid), {}, [r.source, r.target])
  {
    RelationOfTypeHolds(r, uuid(RelationTypeInfo(r.kind).0));
  }

  lemma HierarchyHolds(o: Object)
    requires Carried(o.identifier)
    ensures Holds(HierarchyTree(o), {}, [o.identifier])
  {
    RefHolds(o.identifier);
    WrapHolds(ObjectOfHierarchy, Ref(o.identifier), {}, [o.identifier]);
    WrapHolds(SpecHierarchy, Wrap(ObjectOfHierarchy, Ref(o.identifier)), {}, [o.identifier]);
  }

  function IdentifiersOf(objects: seq<Object>): seq<string> {
    if objects == [] then [] else IdentifiersOf(objects[..|objects| - 1]) + [objects[|objects| - 1].identifier]
  }

  function EndsOf(relations: seq<Relation>): seq<string> {
    if relations == [] then []
    else
      var last := relations[|relations| - 1];
      EndsOf(relations[..|relations| - 1]) + [last.source, last.target]
  }

  lemma {:induction false} ObjectTreesHold(objects: seq<Object>, uuid: UuidTable)
    requires forall o :: o in objects ==> o.identifier != ""
    ensures AllHold(ObjectTrees(objects, uuid), Elements(IdentifiersOf(objects)), [])
  {
    if objects == [] {
      NoneHold();
    } else {
      var front, last := objects[..|objects| - 1], objects[|objects| - 1];
      ObjectTreesHold(front, uuid);
      ObjectHolds(last, uuid);
      OneHolds(ObjectTree(last, uuid), {last.identifier}, []);
      ConcatHolds(ObjectTrees(front, uuid), Elements(IdentifiersOf(front)), [],
                  [ObjectTree(last, uuid)], {last.identifier}, []);
      assert Elements(IdentifiersOf(objects)) == Elements(IdentifiersOf(front)) + {last.identifier};
    }
  }

  lemma {:induction false} RelationTreesHold(relations: seq<Relation>, uuid: UuidTable)
    requires forall r :: r in relations ==> r.identifier != "" && Carried(r.source) && Carried(r.target)
    ensures AllHold(RelationTrees(relations, uuid), {}, EndsOf(relations))
  {
    if relations == [] {
      NoneHold();
    } else {
      var front, last := relations[..|relations| - 1], relations[|relations| - 1];
      RelationTreesHold(front, uuid);
      RelationHolds(last, uuid);
      OneHolds(RelationTree(last, uuid), {}, [last.source, last.target]);
      ConcatHolds(RelationTrees(front, uuid), {}, EndsOf(front),
                  [RelationTree(last, uuid)], {}, [last.source, last.target]);
    }
  }

  lemma {:induction false} HierarchyTreesHold(objects: seq<Object>)
    requires forall o :: o in objects ==> Carried(o.identifier)
    ensures AllHold(HierarchyTrees(objects), {}, IdentifiersOf(objects))
  {
    if objects == [] {
      NoneHold();
    } else {
      var front, last := objects[..|objects| - 1], objects[|objects| - 1];
      HierarchyTreesHold(front);
      HierarchyHolds(last);
      OneHolds(HierarchyTree(last), {}, [last.identifier]);
      ConcatHolds(HierarchyTrees(front), {}, IdentifiersOf(front), [HierarchyTree(last)], {}, [last.identifier]);
    }
  }

  lemma SelfClosingHolds(name: Tag, attributes: Attributes)
    requires IsOther(name)
    ensures Holds(SelfClosing(name, attributes), {}, [])
  {
  }

  lemma {:induction false} RelationTypesHold(kinds: seq<string>, uuid: UuidTable)
    ensures AllHold(RelationTypes(kinds, uuid), {}, [])
  {
    if kinds == [] {
      NoneHold();
    } else {
      var last := RelationType(kinds[|kinds| - 1], uuid);
      RelationTypesHold(kinds[..|kinds| - 1], uuid);
      SelfClosingHolds(SpecRelationType, last.attributes);
      OneHolds(last, {}, []);
      InertConcat(RelationTypes(kinds[..|kinds| - 1], uuid), [last]);
    }
  }

  lemma ObjectTypeHolds(uuid: UuidTable)
    ensures Holds(ObjectType(uuid), {}, [])
  {
    var attributes := ObjectType(uuid).kids[0];
    var a, b, c, d := attributes.kids[0], attributes.kids[1], attributes.kids[2], attributes.kids[3];
    FourHold(a, b, c, d, {}, [], []);
    assert attributes.kids == [a, b, c, d];
    OtherHolds(SpecAttributes, [], attributes.kids, {}, [] + []);
    OneHolds(attributes, {}, [] + []);
    OtherHolds(SpecObjectType, ObjectType(uuid).attributes, [attributes], {}, [] + []);
  }

  lemma TypesHold(relations: seq<Relation>, uuid: UuidTable)
    ensures Holds(TypesTree(relations, uuid), {}, [])
  {
    var kinds := Dedup(Sort(KindsOf(relations)));
    ObjectTypeHolds(uuid);
    OneHolds(ObjectType(uuid), {}, []);
    RelationTypesHold(kinds, uuid);
    InertConcat([ObjectType(uuid)], RelationTypes(kinds, uuid));
    OtherHolds(SpecTypes, [], [ObjectType(uuid)] + RelationTypes(kinds, uuid), {}, []);
  }

  lemma SpecificationHolds(objects: seq<Object>, uuid: UuidTable)
    requires forall o :: o in objects ==> Carried(o.identifier)
    ensures Holds(SpecificationTree(objects, uuid), {}, IdentifiersOf(objects))
  {
    var attributes := SpecificationTree(objects, uuid).attributes;
    assert NeverEmpty(uuid);
    assert Identifier(attributes) == uuid(SpecificationTitle);
    if objects == [] {
      NoneHold();
    } else {
      HierarchyTreesHold(objects);
      OtherHolds(ChildrenOf, [], HierarchyTrees(objects), {}, IdentifiersOf(objects));
      OneHolds(Element(ChildrenOf, [], HierarchyTrees(objects)), {}, IdentifiersOf(objects));
    }
    ElementHolds(Specification, attributes, Children(objects), {}, IdentifiersOf(objects));
    assert OwnIds(Specification, attributes) + {} == {};
  }

  lemma CoreHolds(objects: seq<Object>, relations: seq<Relation>, uuid: UuidTable)
    requires forall o :: o in objects ==> Carried(o.identifier)
    requires forall r :: r in relations ==> r.identifier != "" && Carried(r.source) && Carried(r.target)
    ensures AllHold(CoreTrees(objects, relations, uuid), Elements(IdentifiersOf(objects)),
                    EndsOf(relations) + IdentifiersOf(objects))
    ensures HasObjectsAll(CoreTrees(objects, relations, uuid))
  {
    var core, ids := CoreTrees(objects, relations, uuid), IdentifiersOf(objects);
    TypesHold(relations, uuid);
    ObjectTreesHold(objects, uuid);
    ElementHolds(SpecObjects, [], ObjectTrees(objects, uuid), Elements(ids), []);
    assert {} + Elements(ids) == Elements(ids);
    RelationTreesHold(relations, uuid);
    OtherHolds(SpecRelations, [], RelationTrees(relations, uuid), {}, EndsOf(relations));
    SpecificationHolds(objects, uuid);
    WrapHolds(Specifications, SpecificationTree(objects, uuid), {}, ids);
    FourHold(core[0], core[1], core[2], core[3], Elements(ids), EndsOf(relations), ids);
    assert core == [core[0], core[1], core[2], core[3]];
    assert core[1..][0] == core[1] && HasObjects(core[1]) && HasObjectsAll(core[1..]);
  }

  lemma FourHold(a: Tree, b: Tree, c: Tree, d: Tree, ids: set<string>, cRefs: seq<string>, dRefs: seq<string>)
    requires Holds(a, {}, []) && Holds(b, ids, []) && Holds(c, {}, cRefs) && Holds(d, {}, dRefs)
    ensures AllHold([a, b, c, d], ids, cRefs + dRefs)
  {
    OneHolds(d, {}, dRefs);
    ConsHolds(c, {}, cRefs, [d], {}, dRefs);
    ConsHolds(b, ids, [], [c] + [d], {} + {}, cRefs + dRefs);
    ConsHolds(a, {}, [], [b] + ([c] + [d]), ids + ({} + {}), [] + (cRefs + dRefs));
    assert [a] + ([b] + ([c] + [d])) == [a, b, c, d];
    assert {} + (ids + ({} + {})) == ids && [] + ([] + (cRefs + dRefs)) == cRefs + dRefs;
  }

  // ----- Acceptance -------------------------------------------------------------------

  /** The id is read back as written: no whitespace to trim at its end, and nothing that is escaped. */
  predicate PlainId(id: string) {
    && (id != "" ==> !IsWhitespace(id[|id| - 1]))
    && forall c :: c in id ==> c !in "&<>'\""
  }

  /** The exported ids, and those that exported edges name, are plain. */
  ghost predicate PlainIds(elements: map<string, IrNode>, edges: seq<IrEdge>) {
    && (forall id :: IsReq(elements, id) ==> PlainId(id))
    && (forall e :: e in edges && Selected(elements, e) ==> PlainId(e.src) && PlainId(e.dst))
  }

  lemma ReqifIdIsCarried(id: string)
    requires PlainId(id)
    ensures Carried(DealIdToReqifId(id))
  {
    var r := DealIdToReqifId(id);
    assert r[0] == 'D';
    if id == "" {
      assert r == "DEAL_";
    } else {
      assert r[|r| - 1] == Underscored(id)[|id| - 1];
    }
  }

  /** Some requirement is exported under the identifier that a reference to `id` uses. */
  ghost predicate Resolves(elements: map<string, IrNode>, id: string) {
    exists n :: IsReq(elements, n) && DealIdToReqifId(n) == DealIdToReqifId(id)
  }

  lemma {:induction false} IdentifiersHold(objects: seq<Object>, id: string)
    ensures id in IdentifiersOf(objects) <==> exists o :: o in objects && o.identifier == id
  {
    if objects == [] {
    } else {
      IdentifiersHold(objects[..|objects| - 1], id);
      assert objects == objects[..|objects| - 1] + [objects[|objects| - 1]];
    }
  }

  lemma {:induction false} EndsHold(relations: seq<Relation>, id: string)
    ensures id in EndsOf(relations) <==> exists r :: r in relations && (r.source == id || r.target == id)
  {
    if relations == [] {
    } else {
      EndsHold(relations[..|relations| - 1], id);
      assert relations == relations[..|relations| - 1] + [relations[|relations| - 1]];
    }
  }

  lemma DeclaredIffResolves(elements: map<string, IrNode>, id: string)
    ensures DealIdToReqifId(id) in IdentifiersOf(Objects(elements)) <==> Resolves(elements, id)
  {
    var reqif := DealIdToReqifId(id);
    IdentifiersHold(Objects(elements), reqif);
    if o :| o in Objects(elements) && o.identifier == reqif {
      ObjectsHold(elements, o);
      var n :| IsReq(elements, n) && o == ObjectOf(n, elements[n]);
      assert DealIdToReqifId(n) == reqif;
    }
    if n :| IsReq(elements, n) && DealIdToReqifId(n) == reqif {
      ObjectsHold(elements, ObjectOf(n, elements[n]));
    }
  }

  /**
   The comments promise referential integrity, since only edges between requirements are exported.
   The validator accepts the export exactly when the ends of every exported edge resolve; an end
   that a requirement matches by its last segment alone need not.
   */
  lemma EmittedIsAccepted(elements: map<string, IrNode>, edges: seq<IrEdge>, uuid: UuidTable)
    requires PlainIds(elements, edges)
    ensures Accepts(Emitted(elements, edges, uuid)) <==>
              forall e :: e in edges && Selected(elements, e) ==> Resolves(elements, e.src) && Resolves(elements, e.dst)
  {
    var objects, relations := Objects(elements), Relations(elements, edges);
    ObjectsAreCarried(elements, edges);
    RelationsAreCarried(elements, edges);
    TreeIsAccepted(objects, relations, uuid);
    ReferencesResolve(elements, edges);
  }

  lemma HeldDocumentIsAccepted(attributes: Attributes, header: seq<Tree>, core: seq<Tree>,
                               ids: set<string>, refs: seq<string>)
    requires AllHold(header, {}, []) && AllHold(core, ids, refs) && HasObjectsAll(core) && HasNamespace(attributes)
    ensures Accepts(Flatten(Document(attributes, header, core))) <==> forall r :: r in refs ==> r in ids
  {
    PlainDocumentIsAccepted(attributes, header, core);
    assert RefsAll(header) + RefsAll(core) == refs && IdsAll(header) + IdsAll(core) == ids;
  }

  lemma RootHasNamespace()
    ensures HasNamespace(RootAttributes())
  {
    assert RootAttributes()[0] == (Xmlns, NAMESPACE);
  }

  lemma ReferencesSplit(ends: seq<string>, ids: seq<string>)
    ensures (forall r :: r in ends + ids ==> r in Elements(ids)) <==> forall r :: r in ends ==> r in ids
  {
    assert forall r :: r in ends + ids <==> r in ends || r in ids;
  }

  lemma HeaderHolds(uuid: UuidTable)
    ensures AllHold([HeaderTree(uuid)], {}, [])
  {
    SelfClosingHolds(ReqIfHeader, HeaderTree(uuid).attributes);
    OneHolds(HeaderTree(uuid), {}, []);
  }

  /** Every end of a relation is the identifier of an object. */
  ghost predicate Closed(relations: seq<Relation>, objects: seq<Object>) {
    forall r :: r in EndsOf(relations) ==> r in IdentifiersOf(objects)
  }

  lemma CoreIsAccepted(header: seq<Tree>, core: seq<Tree>, objects: seq<Object>, relations: seq<Relation>)
    requires AllHold(header, {}, []) && HasObjectsAll(core)
    requires AllHold(core, Elements(IdentifiersOf(objects)), EndsOf(relations) + IdentifiersOf(objects))
    ensures Accepts(Flatten(Document(RootAttributes(), header, core))) <==> Closed(relations, objects)
  {
    var ends, ids := EndsOf(relations), IdentifiersOf(objects);
    RootHasNamespace();
    HeldDocumentIsAccepted(RootAttributes(), header, core, Elements(ids), ends + ids);
    ReferencesSplit(ends, ids);
  }

  lemma TreeIsAccepted(objects: seq<Object>, relations: seq<Relation>, uuid: UuidTable)
    requires forall o :: o in objects ==> Carried(o.identifier)
    requires forall r :: r in relations ==> r.identifier != "" && Carried(r.source) && Carried(r.target)
    ensures Accepts(Flatten(DocumentTree(objects, relations, uuid))) <==> Closed(relations, objects)
  {
    HeaderHolds(uuid);
    CoreHolds(objects, relations, uuid);
    CoreIsAccepted([HeaderTree(uuid)], CoreTrees(objects, relations, uuid), objects, relations);
  }

  lemma ObjectsAreCarried(elements: map<string, IrNode>, edges: seq<IrEdge>)
    requires PlainIds(elements, edges)
    ensures forall o :: o in Objects(elements) ==> Carried(o.identifier)
  {
    forall o | o in Objects(elements)
      ensures Carried(o.identifier)
    {
      ObjectsHold(elements, o);
      var id :| IsReq(elements, id) && o == ObjectOf(id, elements[id]);
      ReqifIdIsCarried(id);
    }
  }

  lemma RelationsAreCarried(elements: map<string, IrNode>, edges: seq<IrEdge>)
    requires PlainIds(elements, edges)
    ensures forall r :: r in Relations(elements, edges) ==>
              r.identifier != "" && Carried(r.source) && Carried(r.target)
  {
    forall r | r in Relations(elements, edges)
      ensures r.identifier != "" && Carried(r.source) && Carried(r.target)
    {
      RelationsHold(elements, edges, r);
      var e :| e in edges && Selected(elements, e) && r == RelationOf(e);
      ReqifIdIsCarried(e.src);
      ReqifIdIsCarried(e.dst);
    }
  }

  lemma ReferencesResolve(elements: map<string, IrNode>, edges: seq<IrEdge>)
    ensures Closed(Relations(elements, edges), Objects(elements)) <==>
              forall e :: e in edges && Selected(elements, e) ==> Resolves(elements, e.src) && Resolves(elements, e.dst)
  {
    var ids, ends := IdentifiersOf(Objects(elements)), EndsOf(Relations(elements, edges));
    forall e | e in edges && Selected(elements, e)
      ensures DealIdToReqifId(e.src) in ends && DealIdToReqifId(e.dst) in ends
      ensures DealIdToReqifId(e.src) in ids <==> Resolves(elements, e.src)
      ensures DealIdToReqifId(e.dst) in ids <==> Resolves(elements, e.dst)
    {
      RelationsHold(elements, edges, RelationOf(e));
      EndsHold(Relations(elements, edges), DealIdToReqifId(e.src));
      EndsHold(Relations(elements, edges), DealIdToReqifId(e.dst));
      DeclaredIffResolves(elements, e.src);
      DeclaredIffResolves(elements, e.dst);
    }
    forall x | x in ends
      ensures exists e :: e in edges && Selected(elements, e)
                          && (x == DealIdToReqifId(e.src) || x == DealIdToReqifId(e.dst))
    {
      EndsHold(Relations(elements, edges), x);
      var r :| r in Relations(elements, edges) && (r.source == x || r.target == x);
      RelationsHold(elements, edges, r);
    }
  }

  /** Edges whose ends are ids of requirements in full make an export that is accepted. */
  lemma QualifiedEdgesAreAccepted(elements: map<string, IrNode>, edges: seq<IrEdge>, uuid: UuidTable)
    requires PlainIds(elements, edges)
    requires forall e :: e in edges && Selected(elements, e) ==> IsReq(elements, e.src) && IsReq(elements, e.dst)
    ensures Accepts(Emitted(elements, edges, uuid))
  {
    EmittedIsAccepted(elements, edges, uuid);
  }

  lemma LocalNameMatches(elements: map<string, IrNode>)
    requires IsReq(elements, "p.B")
    ensures MatchesReq(elements, "B")
  {
    assert Dotted.Join(["p", "B"]) == "p" + "." + Dotted.Join(["B"]) == "p.B";
    Dotted.SplitInvertsJoin(["p", "B"]);
    assert Dotted.LastSegment("p.B") == "B";
  }

  lemma LongerNamesDoNotResolve(elements: map<string, IrNode>, id: string)
    requires forall n :: IsReq(elements, n) ==> |n| != |id|
    ensures !Resolves(elements, id)
  {
    forall n | IsReq(elements, n)
      ensures DealIdToReqifId(n) != DealIdToReqifId(id)
    {
      assert |DealIdToReqifId(n)| == 5 + |n|;
    }
  }

  lemma UnresolvedEdgeIsRefused(elements: map<string, IrNode>, edges: seq<IrEdge>, e: IrEdge, uuid: UuidTable)
    requires PlainIds(elements, edges) && e in edges && Selected(elements, e) && !Resolves(elements, e.dst)
    ensures !Accepts(Emitted(elements, edges, uuid))
  {
    EmittedIsAccepted(elements, edges, uuid);
  }

  lemma LocalEdgeIsSelected(elements: map<string, IrNode>)
    requires IsReq(elements, "p.A") && IsReq(elements, "p.B")
    ensures Selected(elements, IrEdge("p.A", "B", "traces"))
  {
    LocalNameMatches(elements);
    assert MatchesReq(elements, "p.A");
    assert TRACE_KINDS[1] == "traces";
  }

  lemma LocalEdgeIsPlain(elements: map<string, IrNode>)
    requires elements.Keys == {"p.A", "p.B"}
    ensures PlainIds(elements, [IrEdge("p.A", "B", "traces")])
  {
    assert PlainId("p.A") && PlainId("p.B") && PlainId("B");
    assert [IrEdge("p.A", "B", "traces")][0] == IrEdge("p.A", "B", "traces");
  }

  lemma LocalEdgeIsRefused(elements: map<string, IrNode>, uuid: UuidTable)
    requires elements.Keys == {"p.A", "p.B"} && IsReq(elements, "p.A") && IsReq(elements, "p.B")
    ensures !Accepts(Emitted(elements, [IrEdge("p.A", "B", "traces")], uuid))
  {
    var e := IrEdge("p.A", "B", "traces");
    LocalEdgeIsPlain(elements);
    LocalEdgeIsSelected(elements);
    LongerNamesDoNotResolve(elements, "B");
    UnresolvedEdgeIsRefused(elements, [e], e, uuid);
  }

  /** An edge whose target is named by its last segment only: it is exported, and refused. */
  lemma LocalNameDangles(fields: Fields, uuid: UuidTable)
    ensures var req := IrNode("requirement_def", fields);
            !Accepts(Emitted(map["p.A" := req, "p.B" := req], [IrEdge("p.A", "B", "traces")], uuid))
  {
    var req := IrNode("requirement_def", fields);
    LocalEdgeIsRefused(map["p.A" := req, "p.B" := req], uuid);
  }
}
