/** Reading a ReqIF export of `cli/src/reqif.rs` back. */
module ReqIfContent {
  // What a ReqIF tool finds in a document: the objects with their values, the relations with their ends
  // and types.  Reading an export gives the objects and relations it was made from.

  import opened Outcome
  import opened Order
  import opened ReqIfValidator
  import opened ReqIf
  import Dotted

  // ----- Looking into a document ------------------------------------------------------

  function KidsOf(t: Tree): seq<Tree> {
    if t.Element? then t.kids else []
  }

  predicate IsNamed(t: Tree, name: Tag) {
    !t.Characters? && t.name == name
  }

  /** The elements of this name. */
  function Named(ts: seq<Tree>, name: Tag): seq<Tree> {
    if ts == [] then []
    else (if IsNamed(ts[0], name) then [ts[0]] else []) + Named(ts[1..], name)
  }

  function KidsOfAll(ts: seq<Tree>): seq<Tree> {
    if ts == [] then [] else KidsOf(ts[0]) + KidsOfAll(ts[1..])
  }

  /** The character data of a tree. */
  function TextOf(t: Tree): string
    decreases t
  {
    match t
    case Element(_, _, kids) => TextAll(kids)
    case SelfClosing(_, _) => ""
    case Characters(text) => text
  }

  function TextAll(ts: seq<Tree>): string
    decreases ts
  {
    if ts == [] then "" else TextOf(ts[0]) + TextAll(ts[1..])
  }

  function AttributeOf(t: Tree, key: Key): string {
    if t.Characters? then "" else ValueAt(t.attributes, key)
  }

  function ValueAt(attributes: Attributes, key: Key): string {
    if attributes == [] then ""
    else if attributes[0].0 == key then attributes[0].1
    else ValueAt(attributes[1..], key)
  }

  function TextUnder(t: Tree, name: Tag): string {
    TextAll(Named(KidsOf(t), name))
  }

  // ----- Relations ----------------------------------------------------------------------

  /** A relation as a tool sees it: its identifier, the objects at its ends, and its type. */
  datatype Seen = Seen(identifier: string, source: string, target: string, typeId: string)

  function ReadRelation(t: Tree): Seen {
    Seen(AttributeOf(t, IdentifierKey), TextUnder(t, Source), TextUnder(t, Target), TextUnder(t, TypeOf))
  }

  lemma TextOfLeaf(t: Tree, name: Tag, text: string)
    requires t == Element(name, [], [Characters(text)])
    ensures TextOf(t) == text
  {
    assert t.kids[1..] == [];
    assert TextAll(t.kids) == text + "";
  }

  lemma TextOfWrap(t: Tree, name: Tag, inner: Tree)
    requires t == Element(name, [], [inner])
    ensures TextOf(t) == TextOf(inner)
  {
    assert t.kids[1..] == [];
    assert TextAll(t.kids) == TextOf(inner) + "";
  }

  lemma OnlyOne(t: Tree)
    ensures TextAll([t]) == TextOf(t)
  {
    assert [t][1..] == [];
    assert TextAll([t]) == TextOf(t) + "";
  }

  lemma NamedThree(a: Tree, b: Tree, c: Tree, name: Tag)
    ensures Named([a, b, c], name)
            == (if IsNamed(a, name) then [a] else []) + ((if IsNamed(b, name) then [b] else [])
                                                         + (if IsNamed(c, name) then [c] else []))
  {
    assert [a, b, c][1..] == [b, c] && [b, c][1..] == [c] && [c][1..] == [];
    assert Named([c], name) == (if IsNamed(c, name) then [c] else []) + [];
  }

  /** A relation is read back with the ends of its edge, in their places, and the type of its kind. */
  lemma RelationReadsBack(r: Relation, uuid: UuidTable)
    ensures ReadRelation(RelationTree(r, uuid))
            == Seen(r.identifier, r.source, r.target, uuid(RelationTypeInfo(r.kind).0))
  {
    var typeId := uuid(RelationTypeInfo(r.kind).0);
    var t := RelationOfType(r, typeId);
    var a, b, c := t.kids[0], t.kids[1], t.kids[2];
    assert t.kids == [a, b, c];
    NamedThree(a, b, c, TypeOf);
    NamedThree(a, b, c, Source);
    NamedThree(a, b, c, Target);
    TextOfLeaf(Leaf(SpecRelationTypeRef, typeId), SpecRelationTypeRef, typeId);
    TextOfLeaf(Ref(r.source), SpecObjectRef, r.source);
    TextOfLeaf(Ref(r.target), SpecObjectRef, r.target);
    TextOfWrap(a, TypeOf, Leaf(SpecRelationTypeRef, typeId));
    TextOfWrap(b, Source, Ref(r.source));
    TextOfWrap(c, Target, Ref(r.target));
    OnlyOne(a);
    OnlyOne(b);
    OnlyOne(c);
    assert [a] + ([] + []) == [a] && [] + ([b] + []) == [b] && [] + ([] + [c]) == [c];
  }

  // ----- Objects ------------------------------------------------------------------------

  /** The identifier of the attribute definition with this long name. */
  function DefinitionNamed(definitions: seq<Tree>, longName: string): string {
    if definitions == [] then ""
    else if AttributeOf(definitions[0], LongName) == longName then AttributeOf(definitions[0], IdentifierKey)
    else DefinitionNamed(definitions[1..], longName)
  }

  /** The value of an attribute with this definition. */
  function ValueFor(values: seq<Tree>, definition: string): Option<string> {
    if values == [] then None
    else if TextUnder(values[0], DefinitionOf) == definition then Some(AttributeOf(values[0], TheValue))
    else ValueFor(values[1..], definition)
  }

  function DefinitionsOf(objectType: Tree): seq<Tree> {
    KidsOfAll(Named(KidsOf(objectType), SpecAttributes))
  }

  function ReadText(values: seq<Tree>, definitions: seq<Tree>, longName: string): Option<string> {
    ValueFor(values, DefinitionNamed(definitions, longName))
  }

  /** The four definitions have identifiers of their own. */
  predicate Apart(uuid: UuidTable) {
    && uuid(TextTitle) != uuid(ThresholdTitle) && uuid(TextTitle) != uuid(OperatorTitle)
    && uuid(TextTitle) != uuid(MethodTitle) && uuid(ThresholdTitle) != uuid(OperatorTitle)
    && uuid(ThresholdTitle) != uuid(MethodTitle) && uuid(OperatorTitle) != uuid(MethodTitle)
  }

  lemma DefinitionsAreNamed(uuid: UuidTable)
    ensures var d := DefinitionsOf(ObjectType(uuid));
            && DefinitionNamed(d, "ReqText") == uuid(TextTitle)
            && DefinitionNamed(d, "Threshold") == uuid(ThresholdTitle)
            && DefinitionNamed(d, "Operator") == uuid(OperatorTitle)
            && DefinitionNamed(d, "VerificationMethod") == uuid(MethodTitle)
  {
    var a, b := Definition(uuid(TextTitle), "ReqText"), Definition(uuid(ThresholdTitle), "Threshold");
    var c, e := Definition(uuid(OperatorTitle), "Operator"), Definition(uuid(MethodTitle), "VerificationMethod");
    DefinitionsAre(uuid);
    DefinitionIs(uuid(TextTitle), "ReqText");
    DefinitionIs(uuid(ThresholdTitle), "Threshold");
    DefinitionIs(uuid(OperatorTitle), "Operator");
    DefinitionIs(uuid(MethodTitle), "VerificationMethod");
    NamesDiffer();
    FourDefinitions([a, b, c, e], a, b, c, e);
  }

  lemma DefinitionsAre(uuid: UuidTable)
    ensures DefinitionsOf(ObjectType(uuid))
            == [Definition(uuid(TextTitle), "ReqText"), Definition(uuid(ThresholdTitle), "Threshold"),
                Definition(uuid(OperatorTitle), "Operator"), Definition(uuid(MethodTitle), "VerificationMethod")]
  {
    var kids := ObjectType(uuid).kids;
    assert kids == [kids[0]];
    OneNamed(kids, SpecAttributes, 0);
  }

  lemma TwoAttributes(j: Key, x: string, k: Key, y: string)
    requires j != k
    ensures ValueAt([(j, x), (k, y)], j) == x && ValueAt([(j, x), (k, y)], k) == y
  {
    assert [(j, x), (k, y)][1..] == [(k, y)];
    assert ValueAt([(k, y)], k) == y;
  }

  lemma DefinitionIs(id: string, longName: string)
    ensures AttributeOf(Definition(id, longName), LongName) == longName
    ensures AttributeOf(Definition(id, longName), IdentifierKey) == id
  {
    TwoAttributes(IdentifierKey, id, LongName, longName);
  }

  lemma NamesDiffer()
    ensures "ReqText" != "Threshold" && "ReqText" != "Operator" && "ReqText" != "VerificationMethod"
    ensures "Threshold" != "Operator" && "Threshold" != "VerificationMethod" && "Operator" != "VerificationMethod"
  {
    assert "ReqText"[0] != "Threshold"[0] && "ReqText"[0] != "Operator"[0] && "ReqText"[0] != "VerificationMethod"[0];
    assert "Threshold"[0] != "Operator"[0] && "Threshold"[0] != "VerificationMethod"[0];
    assert "Operator"[0] != "VerificationMethod"[0];
  }

  lemma FourDefinitions(all: seq<Tree>, a: Tree, b: Tree, c: Tree, e: Tree)
    requires all == [a, b, c, e]
    ensures forall n :: DefinitionNamed(all, n) ==
              if AttributeOf(a, LongName) == n then AttributeOf(a, IdentifierKey)
              else if AttributeOf(b, LongName) == n then AttributeOf(b, IdentifierKey)
              else if AttributeOf(c, LongName) == n then AttributeOf(c, IdentifierKey)
              else if AttributeOf(e, LongName) == n then AttributeOf(e, IdentifierKey)
              else ""
  {
    assert all[1..] == [b, c, e] && [b, c, e][1..] == [c, e] && [c, e][1..] == [e] && [e][1..] == [];
    forall n
      ensures DefinitionNamed([e], n) == if AttributeOf(e, LongName) == n then AttributeOf(e, IdentifierKey) else ""
      ensures DefinitionNamed([c, e], n)
              == if AttributeOf(c, LongName) == n then AttributeOf(c, IdentifierKey) else DefinitionNamed([e], n)
      ensures DefinitionNamed([b, c, e], n)
              == if AttributeOf(b, LongName) == n then AttributeOf(b, IdentifierKey) else DefinitionNamed([c, e], n)
    {
    }
  }

  lemma ValueIs(title: Title, value: string, uuid: UuidTable)
    ensures var t := ValueTree(title, value, uuid);
            TextUnder(t, DefinitionOf) == uuid(title) && AttributeOf(t, TheValue) == value
  {
    var t := ValueTree(title, value, uuid);
    var leaf := Leaf(DefinitionRef, uuid(title));
    assert t.kids[1..] == [] && Named(t.kids, DefinitionOf) == [t.kids[0]] + [];
    TextOfLeaf(leaf, DefinitionRef, uuid(title));
    TextOfWrap(t.kids[0], DefinitionOf, leaf);
    OnlyOne(t.kids[0]);
  }

  lemma ValueForFirst(title: Title, value: Option<string>, rest: seq<Tree>, uuid: UuidTable, definition: string)
    ensures ValueFor(Optional(title, value, uuid) + rest, definition)
            == if value.Some? && uuid(title) == definition then value else ValueFor(rest, definition)
  {
    var first := Optional(title, value, uuid);
    if value.Some? {
      ValueIs(title, value.value, uuid);
      assert (first + rest)[1..] == rest;
    } else {
      assert first + rest == rest;
    }
  }

  lemma ValuesAreFound(f: Fields, uuid: UuidTable, definition: string)
    ensures ValueFor(Values(f, uuid), definition)
            == if definition == uuid(TextTitle) then Some(f.text)
               else if f.threshold.Some? && uuid(ThresholdTitle) == definition then f.threshold
               else if f.operator.Some? && uuid(OperatorTitle) == definition then f.operator
               else if f.accepts.Some? && uuid(MethodTitle) == definition then f.accepts
               else None
  {
    var a, b := Optional(TextTitle, Some(f.text), uuid), Optional(ThresholdTitle, f.threshold, uuid);
    var c, d := Optional(OperatorTitle, f.operator, uuid), Optional(MethodTitle, f.accepts, uuid);
    assert Values(f, uuid) == a + (b + (c + (d + [])));
    ValueForFirst(TextTitle, Some(f.text), b + (c + (d + [])), uuid, definition);
    ValueForFirst(ThresholdTitle, f.threshold, c + (d + []), uuid, definition);
    ValueForFirst(OperatorTitle, f.operator, d + [], uuid, definition);
    ValueForFirst(MethodTitle, f.accepts, [], uuid, definition);
  }

  /** An object as a tool sees it: its identifier, its name, and its values by the names of their definitions. */
  function ReadObject(t: Tree, definitions: seq<Tree>): Object {
    var values := KidsOfAll(Named(KidsOf(t), ValuesOf));
    var text := ReadText(values, definitions, "ReqText");
    Object(AttributeOf(t, IdentifierKey), AttributeOf(t, LongName),
           Fields(if text.Some? then text.value else "", ReadText(values, definitions, "Threshold"),
                  ReadText(values, definitions, "Operator"), ReadText(values, definitions, "VerificationMethod")))
  }

  lemma ObjectParts(o: Object, uuid: UuidTable)
    ensures var t := ObjectTree(o, uuid);
            && AttributeOf(t, IdentifierKey) == o.identifier && AttributeOf(t, LongName) == o.longName
            && KidsOfAll(Named(KidsOf(t), ValuesOf)) == Values(o.fields, uuid)
  {
    var kids := ObjectTree(o, uuid).kids;
    assert kids == [kids[0], kids[1]];
    TwoAttributes(IdentifierKey, o.identifier, LongName, o.longName);
    OneNamed(kids, ValuesOf, 1);
  }

  /** An object is read back as it was, each value under the name of its own definition. */
  lemma ObjectReadsBack(o: Object, uuid: UuidTable)
    requires Apart(uuid)
    ensures ReadObject(ObjectTree(o, uuid), DefinitionsOf(ObjectType(uuid))) == o
  {
    ObjectParts(o, uuid);
    DefinitionsAreNamed(uuid);
    ValuesAreFound(o.fields, uuid, uuid(TextTitle));
    ValuesAreFound(o.fields, uuid, uuid(ThresholdTitle));
    ValuesAreFound(o.fields, uuid, uuid(OperatorTitle));
    ValuesAreFound(o.fields, uuid, uuid(MethodTitle));
  }

  // ----- Whole documents ----------------------------------------------------------------

  /** What stands in this part of the core. */
  function InCore(document: Tree, part: Tag): seq<Tree> {
    KidsOfAll(Named(KidsOfAll(Named(KidsOf(document), CoreContent)), part))
  }

  lemma OneNamed(ts: seq<Tree>, name: Tag, i: nat)
    requires i < |ts| && IsNamed(ts[i], name) && forall j :: 0 <= j < |ts| && j != i ==> !IsNamed(ts[j], name)
    ensures Named(ts, name) == [ts[i]] && KidsOfAll(Named(ts, name)) == KidsOf(ts[i])
  {
    NamedFrom(ts, name, i);
    assert [ts[i]][1..] == [] && KidsOfAll([ts[i]]) == KidsOf(ts[i]) + [];
  }

  lemma {:induction false} NamedFrom(ts: seq<Tree>, name: Tag, i: nat)
    requires i < |ts| && IsNamed(ts[i], name) && forall j :: 0 <= j < |ts| && j != i ==> !IsNamed(ts[j], name)
    ensures Named(ts, name) == [ts[i]]
  {
    if i == 0 {
      NoneNamed(ts[1..], name);
    } else {
      NamedFrom(ts[1..], name, i - 1);
    }
  }

  lemma {:induction false} NoneNamed(ts: seq<Tree>, name: Tag)
    requires forall j :: 0 <= j < |ts| ==> !IsNamed(ts[j], name)
    ensures Named(ts, name) == []
  {
    if ts == [] {
    } else {
      NoneNamed(ts[1..], name);
    }
  }

  /** A tree whose only CORE-CONTENT holds these parts. */
  lemma PartOfCore(document: Tree, core: seq<Tree>, part: Tag, i: nat)
    requires document.Element? && |document.kids| == 2 && document.kids[1] == Core(core)
    requires !IsNamed(document.kids[0], CoreContent)
    requires i < |core| && IsNamed(core[i], part) && forall j :: 0 <= j < |core| && j != i ==> !IsNamed(core[j], part)
    ensures InCore(document, part) == KidsOf(core[i])
  {
    OneNamed(document.kids, CoreContent, 1);
    OneNamed(core, part, i);
  }

  lemma PartsOfCore(objects: seq<Object>, relations: seq<Relation>, uuid: UuidTable)
    ensures var document := DocumentTree(objects, relations, uuid);
            && InCore(document, SpecObjects) == ObjectTrees(objects, uuid)
            && InCore(document, SpecRelations) == RelationTrees(relations, uuid)
            && InCore(document, SpecTypes) == TypesTree(relations, uuid).kids
  {
    FourParts(Header([HeaderTree(uuid)]), TypesTree(relations, uuid), ObjectsTree(objects, uuid),
              RelationsTree(relations, uuid), Wrap(Specifications, SpecificationTree(objects, uuid)),
              DocumentTree(objects, relations, uuid));
  }

  lemma FourParts(header: Tree, types: Tree, objects: Tree, relations: Tree, rest: Tree, document: Tree)
    requires IsNamed(header, TheHeader) && IsNamed(types, SpecTypes) && IsNamed(objects, SpecObjects)
    requires IsNamed(relations, SpecRelations) && IsNamed(rest, Specifications)
    requires document.Element? && document.kids == [header, Core([types, objects, relations, rest])]
    ensures InCore(document, SpecTypes) == KidsOf(types) && InCore(document, SpecObjects) == KidsOf(objects)
    ensures InCore(document, SpecRelations) == KidsOf(relations)
  {
    PartOfCore(document, [types, objects, relations, rest], SpecTypes, 0);
    PartOfCore(document, [types, objects, relations, rest], SpecObjects, 1);
    PartOfCore(document, [types, objects, relations, rest], SpecRelations, 2);
  }

  function ReadEach<X>(ts: seq<Tree>, read: Tree -> X): seq<X> {
    if ts == [] then [] else ReadEach(ts[..|ts| - 1], read) + [read(ts[|ts| - 1])]
  }

  function ReadRelations(ts: seq<Tree>): seq<Seen> {
    ReadEach(ts, ReadRelation)
  }

  function ReadObjects(ts: seq<Tree>, definitions: seq<Tree>): seq<Object> {
    ReadEach(ts, t => ReadObject(t, definitions))
  }

  /** What a tool ought to see of a relation. */
  function SeenOf(r: Relation, uuid: UuidTable): Seen {
    Seen(r.identifier, r.source, r.target, uuid(RelationTypeInfo(r.kind).0))
  }

  function AllSeen(relations: seq<Relation>, uuid: UuidTable): seq<Seen> {
    if relations == [] then []
    else AllSeen(relations[..|relations| - 1], uuid) + [SeenOf(relations[|relations| - 1], uuid)]
  }

  lemma {:induction false} EachIsRead<X>(all: seq<X>, trees: seq<Tree>, read: Tree -> X)
    requires |trees| == |all| && forall i :: 0 <= i < |trees| ==> read(trees[i]) == all[i]
    ensures ReadEach(trees, read) == all
  {
    if all == [] {
    } else {
      EachIsRead(all[..|all| - 1], trees[..|trees| - 1], read);
      assert all == all[..|all| - 1] + [all[|all| - 1]];
    }
  }

  lemma {:induction false} RelationTreesRead(relations: seq<Relation>, uuid: UuidTable)
    ensures ReadRelations(RelationTrees(relations, uuid)) == AllSeen(relations, uuid)
  {
    if relations == [] {
    } else {
      var front, last := relations[..|relations| - 1], relations[|relations| - 1];
      RelationTreesRead(front, uuid);
      RelationReadsBack(last, uuid);
      var trees, t := RelationTrees(front, uuid), RelationTree(last, uuid);
      assert (trees + [t])[..|trees|] == trees;
    }
  }

  lemma {:induction false} ObjectTreesAre(objects: seq<Object>, uuid: UuidTable, i: nat)
    requires i < |objects|
    ensures |ObjectTrees(objects, uuid)| == |objects|
    ensures ObjectTrees(objects, uuid)[i] == ObjectTree(objects[i], uuid)
  {
    var n := |objects| - 1;
    if n == 0 {
      assert ObjectTrees(objects[..0], uuid) == [];
    } else {
      ObjectTreesAre(objects[..n], uuid, if i < n then i else 0);
    }
  }

  lemma OneIsRead(objects: seq<Object>, uuid: UuidTable, i: nat)
    requires Apart(uuid) && i < |objects|
    ensures |ObjectTrees(objects, uuid)| == |objects|
    ensures ReadObject(ObjectTrees(objects, uuid)[i], DefinitionsOf(ObjectType(uuid))) == objects[i]
  {
    ObjectTreesAre(objects, uuid, i);
    ObjectReadsBack(objects[i], uuid);
  }

  lemma ObjectTreesRead(objects: seq<Object>, uuid: UuidTable)
    requires Apart(uuid)
    ensures ReadObjects(ObjectTrees(objects, uuid), DefinitionsOf(ObjectType(uuid))) == objects
  {
    if objects == [] {
    } else {
      forall i | 0 <= i < |objects|
        ensures |ObjectTrees(objects, uuid)| == |objects|
        ensures ReadObject(ObjectTrees(objects, uuid)[i], DefinitionsOf(ObjectType(uuid))) == objects[i]
      {
        OneIsRead(objects, uuid, i);
      }
      OneIsRead(objects, uuid, 0);
      EachIsRead(objects, ObjectTrees(objects, uuid), t => ReadObject(t, DefinitionsOf(ObjectType(uuid))));
    }
  }

  /** The relations of a document, in order, are read with the ends and the types they were given. */
  lemma RelationsReadBack(objects: seq<Object>, relations: seq<Relation>, uuid: UuidTable)
    ensures ReadRelations(InCore(DocumentTree(objects, relations, uuid), SpecRelations))
            == AllSeen(relations, uuid)
  {
    PartsOfCore(objects, relations, uuid);
    RelationTreesRead(relations, uuid);
  }

  /** The objects of a document, read by the definitions that it declares itself, are those it was made from. */
  lemma ObjectsReadBack(objects: seq<Object>, relations: seq<Relation>, uuid: UuidTable)
    requires Apart(uuid)
    ensures var document := DocumentTree(objects, relations, uuid);
            && InCore(document, SpecTypes) != []
            && ReadObjects(InCore(document, SpecObjects), DefinitionsOf(InCore(document, SpecTypes)[0])) == objects
  {
    PartsOfCore(objects, relations, uuid);
    ObjectTreesRead(objects, uuid);
  }

  // ----- Types and hierarchy ------------------------------------------------------------

  /** A relation type with this identifier and name. */
  predicate IsRelationType(t: Tree, id: string, longName: string) {
    IsNamed(t, SpecRelationType) && AttributeOf(t, IdentifierKey) == id && AttributeOf(t, LongName) == longName
  }

  predicate IsTypeOfKind(t: Tree, kind: string, uuid: UuidTable) {
    IsRelationType(t, uuid(RelationTypeInfo(kind).0), RelationTypeInfo(kind).1)
  }

  lemma {:induction false} RelationTypesHold(kinds: seq<string>, uuid: UuidTable)
    ensures forall k :: k in kinds ==> exists t :: t in RelationTypes(kinds, uuid) && IsTypeOfKind(t, k, uuid)
    ensures forall t :: t in RelationTypes(kinds, uuid) ==> exists k :: k in kinds && IsTypeOfKind(t, k, uuid)
  {
    if kinds == [] {
    } else {
      var front, last := kinds[..|kinds| - 1], kinds[|kinds| - 1];
      RelationTypesHold(front, uuid);
      var t := RelationType(last, uuid);
      TwoAttributes(IdentifierKey, uuid(RelationTypeInfo(last).0), LongName, RelationTypeInfo(last).1);
      assert IsTypeOfKind(t, last, uuid);
      assert RelationTypes(kinds, uuid) == RelationTypes(front, uuid) + [t];
      assert kinds == front + [last];
    }
  }

  /** A type of this kind is declared. */
  ghost predicate HasTypeOf(types: seq<Tree>, kind: string, uuid: UuidTable) {
    exists t :: t in types && IsTypeOfKind(t, kind, uuid)
  }

  /** Some relation has this type. */
  ghost predicate IsTypeOfSome(t: Tree, relations: seq<Relation>, uuid: UuidTable) {
    exists r :: r in relations && IsTypeOfKind(t, r.kind, uuid)
  }

  function RelationTypesOf(relations: seq<Relation>, uuid: UuidTable): seq<Tree> {
    RelationTypes(Dedup(Sort(KindsOf(relations))), uuid)
  }

  lemma KindHasType(relations: seq<Relation>, r: Relation, uuid: UuidTable)
    requires r in relations
    ensures HasTypeOf(RelationTypesOf(relations, uuid), r.kind, uuid)
  {
    SortDedupIsListing(KindsOf(relations));
    KindsAreListed(relations);
    KindIsListed(relations, r);
    RelationTypesHold(Dedup(Sort(KindsOf(relations))), uuid);
  }

  lemma TypeHasKind(relations: seq<Relation>, t: Tree, uuid: UuidTable)
    requires t in RelationTypesOf(relations, uuid)
    ensures IsTypeOfSome(t, relations, uuid)
  {
    SortDedupIsListing(KindsOf(relations));
    KindsAreListed(relations);
    var kind := KindOfType(Dedup(Sort(KindsOf(relations))), t, uuid);
    var r := OfKind(relations, kind);
  }

  lemma KindOfType(kinds: seq<string>, t: Tree, uuid: UuidTable) returns (kind: string)
    requires t in RelationTypes(kinds, uuid)
    ensures kind in kinds && IsTypeOfKind(t, kind, uuid)
  {
    RelationTypesHold(kinds, uuid);
    kind :| kind in kinds && IsTypeOfKind(t, kind, uuid);
  }

  lemma OfKind(relations: seq<Relation>, kind: string) returns (r: Relation)
    requires kind in KindsOf(relations)
    ensures r in relations && r.kind == kind
  {
    var i :| 0 <= i < |relations| && KindsOf(relations)[i] == kind;
    r := relations[i];
  }

  /** What each relation refers to as its type is declared under the name of its kind, and no other type is. */
  lemma TypesAreDeclared(objects: seq<Object>, relations: seq<Relation>, uuid: UuidTable)
    ensures var types := InCore(DocumentTree(objects, relations, uuid), SpecTypes);
            && (forall r :: r in relations ==> HasTypeOf(types, r.kind, uuid))
            && (forall t :: t in types && IsNamed(t, SpecRelationType) ==> IsTypeOfSome(t, relations, uuid))
  {
    PartsOfCore(objects, relations, uuid);
    var rest := RelationTypesOf(relations, uuid);
    var types := [ObjectType(uuid)] + rest;
    assert InCore(DocumentTree(objects, relations, uuid), SpecTypes) == types;
    forall r | r in relations
      ensures HasTypeOf(types, r.kind, uuid)
    {
      KindHasType(relations, r, uuid);
      MoreTypes(ObjectType(uuid), rest, r.kind, uuid);
    }
    forall t | t in types && IsNamed(t, SpecRelationType)
      ensures IsTypeOfSome(t, relations, uuid)
    {
      TypeHasKind(relations, t, uuid);
    }
  }

  lemma MoreTypes(first: Tree, rest: seq<Tree>, kind: string, uuid: UuidTable)
    requires HasTypeOf(rest, kind, uuid)
    ensures HasTypeOf([first] + rest, kind, uuid)
  {
    var t :| t in rest && IsTypeOfKind(t, kind, uuid);
    assert t in [first] + rest;
  }

  lemma KindsAreListed(relations: seq<Relation>)
    ensures forall k :: k in Listing(Elements(KindsOf(relations))) <==> k in KindsOf(relations)
  {
    var kinds := KindsOf(relations);
    assert forall k :: k in kinds <==> k in Elements(kinds);
    assert forall k :: k in Listing(Elements(kinds)) <==> k in Elements(Listing(Elements(kinds)));
  }

  lemma KindIsListed(relations: seq<Relation>, r: Relation)
    requires r in relations
    ensures r.kind in KindsOf(relations)
  {
    var i :| 0 <= i < |relations| && relations[i] == r;
    assert KindsOf(relations)[i] == r.kind;
  }

  /** What each object refers to as its type is the type that declares the attributes. */
  lemma ObjectTypeIsReferred(o: Object, uuid: UuidTable)
    ensures TextUnder(ObjectTree(o, uuid), TypeOf) == AttributeOf(ObjectType(uuid), IdentifierKey)
  {
    var kids := ObjectTree(o, uuid).kids;
    assert kids == [kids[0], kids[1]];
    OneNamed(kids, TypeOf, 0);
    OnlyOne(kids[0]);
    TextOfLeaf(Leaf(SpecObjectTypeRef, uuid(RequirementType)), SpecObjectTypeRef, uuid(RequirementType));
    TextOfWrap(kids[0], TypeOf, Leaf(SpecObjectTypeRef, uuid(RequirementType)));
    TwoAttributes(IdentifierKey, uuid(RequirementType), LongName, "RequirementType");
  }

  lemma HierarchyRefers(o: Object)
    ensures TextOf(HierarchyTree(o)) == o.identifier
  {
    TextOfLeaf(Ref(o.identifier), SpecObjectRef, o.identifier);
    TextOfWrap(Wrap(ObjectOfHierarchy, Ref(o.identifier)), ObjectOfHierarchy, Ref(o.identifier));
    TextOfWrap(HierarchyTree(o), SpecHierarchy, Wrap(ObjectOfHierarchy, Ref(o.identifier)));
  }

  function IdentifiersIn(objects: seq<Object>): seq<string> {
    if objects == [] then [] else IdentifiersIn(objects[..|objects| - 1]) + [objects[|objects| - 1].identifier]
  }

  lemma {:induction false} HierarchyTreesRefer(objects: seq<Object>)
    ensures ReadEach(HierarchyTrees(objects), TextOf) == IdentifiersIn(objects)
  {
    if objects == [] {
    } else {
      var front, last := objects[..|objects| - 1], objects[|objects| - 1];
      HierarchyTreesRefer(front);
      HierarchyRefers(last);
      var trees, t := HierarchyTrees(front), HierarchyTree(last);
      assert (trees + [t])[..|trees|] == trees;
    }
  }

  /** The specification refers to the objects in their order. */
  lemma HierarchyReadsBack(objects: seq<Object>, uuid: UuidTable)
    ensures ReadEach(KidsOfAll(Named(KidsOf(SpecificationTree(objects, uuid)), ChildrenOf)), TextOf)
            == IdentifiersIn(objects)
  {
    HierarchyTreesRefer(objects);
    if objects != [] {
      OneNamed(Children(objects), ChildrenOf, 0);
    }
  }

  // ----- What was exported --------------------------------------------------------------

  /** An object says of a requirement: its identifier, the last segment of its name, its fields. */
  predicate ObjectSays(o: Object, id: string, node: IrNode) {
    && |o.identifier| == 5 + |id| && "DEAL_" <= o.identifier
    && (forall i :: 0 <= i < |id| ==> o.identifier[5 + i] == if id[i] == '.' then '_' else id[i])
    && '.' !in o.longName && Dotted.DotEndsWith(id, o.longName)
    && o.fields == node.fields
  }

  lemma ObjectOfSays(id: string, node: IrNode)
    ensures ObjectSays(ObjectOf(id, node), id, node)
  {
    Dotted.LastSegmentIs(id, Dotted.LastSegment(id));
    assert DealIdToReqifId(id)[5..] == Underscored(id);
  }

  predicate IsExported(node: IrNode) {
    node.kind == "requirement_def" || node.kind == "need_def"
  }

  /** The objects of an export are those of the requirements and needs, and nothing else. */
  lemma ExportedObjects(elements: map<string, IrNode>, o: Object)
    ensures o in Objects(elements) ==>
              exists id :: id in elements && IsExported(elements[id]) && ObjectSays(o, id, elements[id])
    ensures forall id :: id in elements && IsExported(elements[id]) ==>
              exists x :: x in Objects(elements) && ObjectSays(x, id, elements[id])
  {
    ObjectsHold(elements, o);
    if o in Objects(elements) {
      var id :| IsReq(elements, id) && o == ObjectOf(id, elements[id]);
      ObjectOfSays(id, elements[id]);
    }
    forall id | id in elements && IsExported(elements[id])
      ensures exists x :: x in Objects(elements) && ObjectSays(x, id, elements[id])
    {
      assert IsReq(elements, id);
      ObjectsHold(elements, ObjectOf(id, elements[id]));
      ObjectOfSays(id, elements[id]);
    }
  }

  predicate IsTrace(kind: string) {
    kind == "satisfies" || kind == "traces" || kind == "derives_from" || kind == "allocated_to"
  }

  /** Some requirement or need has this name, or ends in it as its last segment. */
  ghost predicate NamesRequirement(elements: map<string, IrNode>, id: string) {
    exists n :: n in elements && IsExported(elements[n]) && (n == id || ('.' !in id && Dotted.DotEndsWith(n, id)))
  }

  /** The edges exported are the trace edges between requirements, by name or by last segment. */
  lemma ExportedEdges(elements: map<string, IrNode>, e: IrEdge)
    ensures Selected(elements, e) <==>
              && IsTrace(e.kind) && e.src != "" && e.dst != ""
              && NamesRequirement(elements, e.src) && NamesRequirement(elements, e.dst)
  {
    TraceKindsAre(e.kind);
    MatchesNamed(elements, e.src);
    MatchesNamed(elements, e.dst);
  }

  lemma TraceKindsAre(kind: string)
    ensures kind in TRACE_KINDS <==> IsTrace(kind)
  {
    var kinds := TRACE_KINDS;
    assert kinds[0] == "satisfies" && kinds[1] == "traces" && kinds[2] == "derives_from" && kinds[3] == "allocated_to";
    assert |kinds| == 4;
  }

  lemma MatchesNamed(elements: map<string, IrNode>, id: string)
    ensures MatchesReq(elements, id) <==> NamesRequirement(elements, id)
  {
    forall n
      ensures id == Dotted.LastSegment(n) <==> '.' !in id && Dotted.DotEndsWith(n, id)
    {
      Dotted.LastSegmentIs(n, id);
    }
    forall n
      ensures IsReq(elements, n) <==> n in elements && IsExported(elements[n])
    {
    }
  }

  /** The objects and the relations come in the order of their identifiers. */
  lemma ExportIsSorted(elements: map<string, IrNode>, edges: seq<IrEdge>)
    ensures var objects := Objects(elements);
            forall i, j :: 0 <= i < j < |objects| ==> !Less(objects[j].identifier, objects[i].identifier)
    ensures var relations := Relations(elements, edges);
            forall i, j :: 0 <= i < j < |relations| ==> !Less(relations[j].identifier, relations[i].identifier)
  {
    ObjectsSort();
    RelationsSort();
    var ids := Listing(elements.Keys);
    assert forall id :: id in ids ==> id in Elements(ids);
    SortBySorts(ObjectsOf(elements, ids), ObjectBefore);
    SortBySorts(RelationsOf(elements, edges), RelationBefore);
    assert Sorted(Objects(elements), ObjectBefore) && Sorted(Relations(elements, edges), RelationBefore);
  }

  lemma ObjectsSort()
    ensures WeakOrder(ObjectBefore)
  {
    forall a, b | ObjectBefore(a, b)
      ensures !ObjectBefore(b, a)
    {
      LessIsAsymmetric(a.identifier, b.identifier);
    }
    forall a, b, c | !ObjectBefore(b, a) && !ObjectBefore(c, b)
      ensures !ObjectBefore(c, a)
    {
      NotLessIsTransitive(a.identifier, b.identifier, c.identifier);
    }
  }

  lemma RelationsSort()
    ensures WeakOrder(RelationBefore)
  {
    forall a, b | RelationBefore(a, b)
      ensures !RelationBefore(b, a)
    {
      LessIsAsymmetric(a.identifier, b.identifier);
    }
    forall a, b, c | !RelationBefore(b, a) && !RelationBefore(c, b)
      ensures !RelationBefore(c, a)
    {
      NotLessIsTransitive(a.identifier, b.identifier, c.identifier);
    }
  }

  /**
   What a tool reads of an edge: the source's identifier at the source, the target's at the target, and in
   its own identifier the one of the source in front of the one of the target.
   */
  lemma EdgeReadsBack(e: IrEdge, uuid: UuidTable)
    ensures var seen := ReadRelation(RelationTree(RelationOf(e), uuid));
            && seen.source == DealIdToReqifId(e.src) && seen.target == DealIdToReqifId(e.dst)
            && seen.typeId == uuid(RelationTypeInfo(e.kind).0)
            && |seen.identifier| == |seen.source| + |seen.target| && "DEAL_REL_" <= seen.identifier
            && seen.identifier[9..|seen.source| + 4] == seen.source[5..]
            && seen.identifier[|seen.source| + 4] == '_'
            && seen.identifier[|seen.source| + 5..] == seen.target[5..]
  {
    var r, a, b := RelationOf(e), Underscored(e.src), Underscored(e.dst);
    RelationReadsBack(r, uuid);
    assert r.source == "DEAL_" + a && r.target == "DEAL_" + b;
    assert r.identifier == "DEAL_REL_" + a + "_" + b;
  }

  /** Each trace kind has a type of its own, so that the kind of an edge is not lost. */
  lemma KindsAreKept(kind: string, other: string)
    requires kind in TRACE_KINDS && other in TRACE_KINDS && kind != other
    ensures RelationTypeInfo(kind).0 != RelationTypeInfo(other).0
    ensures RelationTypeInfo(kind).1 != RelationTypeInfo(other).1
  {
    assert "SatisfiesRelation"[0] != "TracesRelation"[0] && "DerivesFromRelation"[0] != "AllocatedToRelation"[0];
    assert "SatisfiesRelation"[0] != "DerivesFromRelation"[0] && "SatisfiesRelation"[0] != "AllocatedToRelation"[0];
    assert "TracesRelation"[0] != "DerivesFromRelation"[0] && "TracesRelation"[0] != "AllocatedToRelation"[0];
  }
}
