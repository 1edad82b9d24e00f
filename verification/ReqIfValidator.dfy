/**
 The structural validator of `cli/src/reqif_schema.rs`, over the events an XML reader reports.

 Documents are trees; `Flatten` gives their events.  What the event loop finds in a document is
 told from the tree: which identifiers it declares and which references it holds.
 */
module ReqIfValidator {
  import opened Chars

  datatype Key =
    | Xmlns | IdentifierKey | LongName | TheValue | CreationTime | ToolId | Version | OtherKey(key: string)

  type Attributes = seq<(Key, string)>

  /** Element names: first those the validator knows, then the others an export uses. */
  datatype Tag =
    | ReqIf | TheHeader | CoreContent | SpecObjects | SpecObject | SpecRelation | Specification | SpecObjectRef
    | ReqIfHeader | SpecTypes | SpecObjectType | SpecAttributes | AttributeDefinition | SpecRelationType
    | TypeOf | SpecObjectTypeRef | SpecRelationTypeRef | ValuesOf | AttributeValue | DefinitionOf | DefinitionRef
    | SpecRelations | Source | Target | Specifications | ChildrenOf | SpecHierarchy | ObjectOfHierarchy
    | Other(name: string)

  datatype Event =
    | Start(name: Tag, attributes: Attributes)
    | Empty(name: Tag, attributes: Attributes)
    | Text(text: string)
    | End(name: Tag)

  const NAMESPACE := "http://www.omg.org/spec/ReqIF/20110401/reqif.xsd"

  predicate MustBeIdentified(name: Tag) {
    name.SpecObject? || name.SpecRelation? || name.Specification?
  }

  datatype Violation =
    | MissingIdentifier(element: Tag)
    | DanglingReference(reference: string)
    | NoRoot | WrongNamespace | NoHeader | NoCoreContent | NoSpecObjects

  // ----- The event loop as a state machine -------------------------------------------

  /** The flags and counters of the loop. */
  datatype Flags = Flags(
    foundRoot: bool, rightNamespace: bool, foundHeader: bool, foundCore: bool, foundObjects: bool,
    depth: int, insideCore: bool, coreDepth: int, insideRef: bool)

  datatype Scan = Scan(flags: Flags, ids: set<string>, refs: seq<string>, violations: seq<Violation>)

  const START: Scan := Scan(Flags(false, false, false, false, false, 0, false, 0, false), {}, [], [])

  /** `extract_identifier`: the first non-empty one, or "". */
  function Identifier(attributes: Attributes): string {
    if attributes == [] then ""
    else if attributes[0].0 == IdentifierKey && attributes[0].1 != "" then attributes[0].1
    else Identifier(attributes[1..])
  }

  /** Only the default namespace is looked at. */
  predicate HasNamespace(attributes: Attributes) {
    (Xmlns, NAMESPACE) in attributes
  }

  /** The event begins an element of this name. */
  predicate Names(e: Event, name: Tag) {
    (e.Start? || e.Empty?) && e.name == name
  }

  function OwnIds(name: Tag, attributes: Attributes): set<string> {
    if name == SpecObject && Identifier(attributes) != "" then {Identifier(attributes)} else {}
  }

  function IdsOf(e: Event): set<string> {
    if e.Start? || e.Empty? then OwnIds(e.name, e.attributes) else {}
  }

  function RefsOf(e: Event, insideRef: bool): seq<string> {
    if e.Text? && insideRef && Trim(e.text) != "" then [Trim(e.text)] else []
  }

  /** The event begins an element that must carry an identifier, and does not. */
  predicate Unidentified(e: Event) {
    (e.Start? || e.Empty?) && MustBeIdentified(e.name) && Identifier(e.attributes) == ""
  }

  function FaultsOf(e: Event): seq<Violation> {
    if Unidentified(e) then [MissingIdentifier(e.name)] else []
  }

  function FlagsAfter(f: Flags, e: Event): Flags {
    match e
    case Start(name, attributes) =>
      Flags(f.foundRoot || name.ReqIf?,
            if name.ReqIf? then HasNamespace(attributes) else f.rightNamespace,
            f.foundHeader || name.TheHeader?, f.foundCore || name.CoreContent?,
            f.foundObjects || (name.SpecObjects? && f.insideCore),
            f.depth + 1, f.insideCore || name.CoreContent?,
            if name.CoreContent? then f.depth + 1 else f.coreDepth,
            f.insideRef || name.SpecObjectRef?)
    case Empty(name, attributes) =>
      Flags(f.foundRoot || name.ReqIf?,
            if name.ReqIf? then HasNamespace(attributes) else f.rightNamespace,
            f.foundHeader || name.TheHeader?, f.foundCore || name.CoreContent?,
            f.foundObjects || (name.SpecObjects? && f.insideCore),
            f.depth, f.insideCore && !name.CoreContent?,
            if name.CoreContent? then f.depth + 1 else f.coreDepth,
            f.insideRef)
    case Text(_) => f
    case End(name) =>
      f.(depth := f.depth - 1,
         insideCore := f.insideCore && !(name.CoreContent? && f.depth == f.coreDepth),
         insideRef := f.insideRef && !name.SpecObjectRef?)
  }

  /** One turn of the loop, variable by variable. */
  function Step(s: Scan, e: Event): Scan {
    Scan(FlagsAfter(s.flags, e), s.ids + IdsOf(e), s.refs + RefsOf(e, s.flags.insideRef),
         s.violations + FaultsOf(e))
  }

  function ScanAll(s: Scan, events: seq<Event>): Scan {
    if events == [] then s
    else Step(ScanAll(s, events[..|events| - 1]), events[|events| - 1])
  }

  function Dangling(refs: seq<string>, ids: set<string>): seq<Violation> {
    if refs == [] then []
    else
      var last := refs[|refs| - 1];
      Dangling(refs[..|refs| - 1], ids) + if last in ids then [] else [DanglingReference(last)]
  }

  function Push(violations: seq<Violation>, fault: bool, violation: Violation): seq<Violation> {
    if fault then violations + [violation] else violations
  }

  /** What the validator reports once the events have been read; nothing means `Ok`. */
  function Verdict(s: Scan): seq<Violation> {
    var found := s.violations + Dangling(s.refs, s.ids);
    var root := Push(Push(found, !s.flags.foundRoot, NoRoot),
                     s.flags.foundRoot && !s.flags.rightNamespace, WrongNamespace);
    var parts := Push(Push(root, !s.flags.foundHeader, NoHeader), !s.flags.foundCore, NoCoreContent);
    Push(parts, !s.flags.foundObjects, NoSpecObjects)
  }

  predicate Accepts(events: seq<Event>) {
    Verdict(ScanAll(START, events)) == []
  }

  /** The loop of `validate_reqif_xml`, with `process_start_element` in it. */
  method ScanEvents(events: seq<Event>) returns (s: Scan)
    ensures s == ScanAll(START, events)
  {
    s := START;
    for i := 0 to |events|
      invariant s == ScanAll(START, events[..i])
    {
      assert events[..i + 1][..i] == events[..i];
      s := ScanEvent(s, events[i]);
    }
    assert events[..|events|] == events;
  }

  method ScanEvent(s: Scan, e: Event) returns (t: Scan)
    ensures t == Step(s, e)
  {
    var ids, refs, violations := s.ids, s.refs, s.violations;
    if e.Start? || e.Empty? {
      if e.name == SpecObject && Identifier(e.attributes) != "" {
        ids := ids + {Identifier(e.attributes)};
      }
      if MustBeIdentified(e.name) && Identifier(e.attributes) == "" {
        violations := violations + [MissingIdentifier(e.name)];
      }
    } else if e.Text? && s.flags.insideRef && Trim(e.text) != "" {
      refs := refs + [Trim(e.text)];
    }
    var flags := NextFlags(s.flags, e);
    t := Scan(flags, ids, refs, violations);
  }

  method NextFlags(f: Flags, e: Event) returns (g: Flags)
    ensures g == FlagsAfter(f, e)
  {
    match e
    case Start(name, attributes) => g := AtStart(f, name, attributes);
    case Empty(name, attributes) => g := AtEmpty(f, name, attributes);
    case Text(_) => g := f;
    case End(name) => g := AtEnd(f, name);
  }

  method AtStart(f: Flags, name: Tag, attributes: Attributes) returns (g: Flags)
    ensures g == FlagsAfter(f, Start(name, attributes))
  {
    g := ProcessStartElement(f, name, attributes);
    g := g.(depth := f.depth + 1, insideRef := f.insideRef || name == SpecObjectRef);
  }

  method AtEmpty(f: Flags, name: Tag, attributes: Attributes) returns (g: Flags)
    ensures g == FlagsAfter(f, Empty(name, attributes))
  {
    g := ProcessStartElement(f, name, attributes);
    if name == CoreContent {
      g := g.(insideCore := false);
    }
  }

  method AtEnd(f: Flags, name: Tag) returns (g: Flags)
    ensures g == FlagsAfter(f, End(name))
  {
    var insideCore, insideRef := f.insideCore, f.insideRef;
    if name == CoreContent && insideCore && f.depth == f.coreDepth {
      insideCore := false;
    }
    if name == SpecObjectRef {
      insideRef := false;
    }
    g := f.(depth := f.depth - 1, insideCore := insideCore, insideRef := insideRef);
  }

  /** `process_start_element`: its element lies one level below the flags' depth. */
  method ProcessStartElement(f: Flags, name: Tag, attributes: Attributes) returns (g: Flags)
    ensures g == FlagsAfter(f, Start(name, attributes)).(depth := f.depth, insideRef := f.insideRef)
  {
    g := f;
    if name == ReqIf {
      g := f.(foundRoot := true, rightNamespace := HasNamespace(attributes));
    } else if name == TheHeader {
      g := f.(foundHeader := true);
    } else if name == CoreContent {
      g := f.(foundCore := true, insideCore := true, coreDepth := f.depth + 1);
    } else if name == SpecObjects && f.insideCore {
      g := f.(foundObjects := true);
    }
  }

  /** `validate_reqif_xml` */
  method ValidateReqif(events: seq<Event>) returns (violations: seq<Violation>)
    ensures violations == Verdict(ScanAll(START, events))
  {
    var s := ScanEvents(events);
    violations := CheckReferences(s);
    if !s.flags.foundRoot {
      violations := violations + [NoRoot];
    } else if !s.flags.rightNamespace {
      violations := violations + [WrongNamespace];
    }
    if !s.flags.foundHeader {
      violations := violations + [NoHeader];
    }
    if !s.flags.foundCore {
      violations := violations + [NoCoreContent];
    }
    if !s.flags.foundObjects {
      violations := violations + [NoSpecObjects];
    }
  }

  method CheckReferences(s: Scan) returns (violations: seq<Violation>)
    ensures violations == s.violations + Dangling(s.refs, s.ids)
  {
    violations := s.violations;
    for i := 0 to |s.refs|
      invariant violations == s.violations + Dangling(s.refs[..i], s.ids)
    {
      assert s.refs[..i + 1][..i] == s.refs[..i];
      if s.refs[i] !in s.ids {
        violations := violations + [DanglingReference(s.refs[i])];
      }
    }
    assert s.refs[..|s.refs|] == s.refs;
  }

  lemma {:induction false} NoneDangle(refs: seq<string>, ids: set<string>)
    ensures Dangling(refs, ids) == [] <==> forall r :: r in refs ==> r in ids
  {
    if refs == [] {
    } else {
      NoneDangle(refs[..|refs| - 1], ids);
      assert refs == refs[..|refs| - 1] + [refs[|refs| - 1]];
    }
  }

  // ----- What the loop remembers, told from the list of events ----------------------------

  ghost predicate Mentions(events: seq<Event>, name: Tag) {
    exists e :: e in events && Names(e, name)
  }

  predicate Declares(e: Event, id: string) {
    Names(e, SpecObject) && id != "" && Identifier(e.attributes) == id
  }

  ghost predicate DeclaredIn(events: seq<Event>, id: string) {
    exists e :: e in events && Declares(e, id)
  }

  /** The first identifier that is not empty. */
  ghost predicate FirstIdentifier(attributes: Attributes, id: string) {
    exists i :: 0 <= i < |attributes| && attributes[i] == (IdentifierKey, id) && id != "" && NoneUntil(attributes, i)
  }

  ghost predicate NoneUntil(attributes: Attributes, i: nat)
    requires i <= |attributes|
  {
    forall j :: 0 <= j < i && attributes[j].0 == IdentifierKey ==> attributes[j].1 == ""
  }

  lemma {:induction false} IdentifierFrom(attributes: Attributes, i: nat)
    requires i <= |attributes| && NoneUntil(attributes, i)
    ensures Identifier(attributes) == Identifier(attributes[i..])
  {
    if i == 0 {
      assert attributes[0..] == attributes;
    } else {
      IdentifierFrom(attributes, i - 1);
      assert attributes[i - 1..][1..] == attributes[i..];
    }
  }

  lemma {:induction false} IdentifierIsFound(attributes: Attributes)
    ensures Identifier(attributes) != "" ==> FirstIdentifier(attributes, Identifier(attributes))
    ensures Identifier(attributes) == "" ==> NoneUntil(attributes, |attributes|)
  {
    if attributes != [] && !(attributes[0].0 == IdentifierKey && attributes[0].1 != "") {
      var rest := attributes[1..];
      IdentifierIsFound(rest);
      if Identifier(rest) != "" {
        var i :| 0 <= i < |rest| && rest[i] == (IdentifierKey, Identifier(rest)) && NoneUntil(rest, i);
        assert attributes[i + 1] == rest[i];
        assert NoneUntil(attributes, i + 1) by {
          assert forall j :: 1 <= j < i + 1 ==> attributes[j] == rest[j - 1];
        }
      } else {
        assert forall j :: 1 <= j < |attributes| ==> attributes[j] == rest[j - 1];
      }
    } else if attributes != [] {
      assert NoneUntil(attributes, 0);
    }
  }

  /** The identifier that counts is the first one that is not empty. */
  lemma IdentifierMeans(attributes: Attributes, id: string)
    ensures FirstIdentifier(attributes, id) <==> id != "" && Identifier(attributes) == id
    ensures Identifier(attributes) == "" <==> forall v :: (IdentifierKey, v) in attributes ==> v == ""
  {
    IdentifierIsFound(attributes);
    if FirstIdentifier(attributes, id) {
      var i :| 0 <= i < |attributes| && attributes[i] == (IdentifierKey, id) && NoneUntil(attributes, i);
      IdentifierFrom(attributes, i);
    }
    if Identifier(attributes) == "" {
      assert forall j :: 0 <= j < |attributes| && attributes[j].0 == IdentifierKey ==> attributes[j].1 == "";
    }
  }

  /** Objects are declared by their identifier. */
  lemma DeclaresMeans(e: Event, id: string)
    ensures Declares(e, id) <==> Names(e, SpecObject) && FirstIdentifier(e.attributes, id)
  {
    if Names(e, SpecObject) {
      IdentifierMeans(e.attributes, id);
    }
  }

  /** Objects, relations and specifications must have one. */
  lemma UnidentifiedMeans(e: Event)
    ensures Unidentified(e) <==>
              && (Names(e, SpecObject) || Names(e, SpecRelation) || Names(e, Specification))
              && forall v :: (IdentifierKey, v) in e.attributes ==> v == ""
  {
    if e.Start? || e.Empty? {
      IdentifierMeans(e.attributes, "");
    }
  }

  /** An `opens` has occurred, and no `shuts` after it. */
  ghost predicate Since(events: seq<Event>, opens: Event -> bool, shuts: Event -> bool) {
    exists i :: 0 <= i < |events| && opens(events[i]) && forall k :: i < k < |events| ==> !shuts(events[k])
  }

  predicate BeginsRoot(e: Event) {
    Names(e, ReqIf)
  }

  predicate BeginsRightRoot(e: Event) {
    Names(e, ReqIf) && HasNamespace(e.attributes)
  }

  predicate BeginsReference(e: Event) {
    e.Start? && e.name == SpecObjectRef
  }

  predicate EndsReference(e: Event) {
    e == End(SpecObjectRef)
  }

  /** The last root element, if there is one, is in the ReqIF namespace. */
  ghost predicate RootInNamespace(events: seq<Event>) {
    Since(events, BeginsRightRoot, BeginsRoot)
  }

  /** A text that comes now is read as a reference. */
  ghost predicate InReference(events: seq<Event>) {
    Since(events, BeginsReference, EndsReference)
  }

  predicate ReadsAs(e: Event, reference: string) {
    e.Text? && Trim(e.text) == reference && reference != ""
  }

  /** Some text that is read as a reference is this one. */
  ghost predicate RefersTo(events: seq<Event>, reference: string) {
    exists i :: 0 <= i < |events| && ReadsAs(events[i], reference) && InReference(events[..i])
  }

  lemma MentionsSnoc(events: seq<Event>, e: Event, name: Tag)
    ensures Mentions(events + [e], name) <==> Mentions(events, name) || Names(e, name)
  {
    var all := events + [e];
    assert e in all;
    if d :| d in events && Names(d, name) {
      assert d in all;
    }
  }

  lemma DeclaredInSnoc(events: seq<Event>, e: Event, id: string)
    ensures DeclaredIn(events + [e], id) <==> DeclaredIn(events, id) || Declares(e, id)
  {
    var all := events + [e];
    assert e in all;
    if d :| d in events && Declares(d, id) {
      assert d in all;
    }
  }

  lemma SinceSnoc(events: seq<Event>, e: Event, opens: Event -> bool, shuts: Event -> bool)
    ensures Since(events + [e], opens, shuts) <==> opens(e) || (Since(events, opens, shuts) && !shuts(e))
  {
    var all, n := events + [e], |events|;
    assert all[n] == e;
    if i :| 0 <= i < n && opens(events[i]) && forall k :: i < k < n ==> !shuts(events[k]) {
      assert all[i] == events[i];
      assert !shuts(e) ==> forall k :: i < k < |all| ==> !shuts(all[k]);
    }
    if i :| 0 <= i < |all| && opens(all[i]) && forall k :: i < k < |all| ==> !shuts(all[k]) {
      assert i < n ==> opens(events[i]) && forall k :: i < k < n ==> !shuts(all[k]) && all[k] == events[k];
    }
  }

  lemma RefersToSnoc(events: seq<Event>, e: Event, reference: string)
    ensures RefersTo(events + [e], reference) <==>
              RefersTo(events, reference) || (ReadsAs(e, reference) && InReference(events))
  {
    var all, n := events + [e], |events|;
    assert all[n] == e && all[..n] == events;
    forall i | 0 <= i < n
      ensures all[i] == events[i] && all[..i] == events[..i]
    {
    }
  }

  lemma PartsStep(f: Flags, e: Event)
    ensures var g := FlagsAfter(f, e);
            && (g.foundRoot <==> f.foundRoot || Names(e, ReqIf))
            && (g.foundHeader <==> f.foundHeader || Names(e, TheHeader))
            && (g.foundCore <==> f.foundCore || Names(e, CoreContent))
  {
    match e {
      case Start(_, _) =>
      case Empty(_, _) =>
      case Text(_) =>
      case End(_) =>
    }
  }

  lemma NamespaceStep(f: Flags, e: Event)
    ensures FlagsAfter(f, e).rightNamespace <==> BeginsRightRoot(e) || (f.rightNamespace && !BeginsRoot(e))
  {
  }

  lemma InsideRefStep(f: Flags, e: Event)
    ensures FlagsAfter(f, e).insideRef <==> BeginsReference(e) || (f.insideRef && !EndsReference(e))
  {
  }

  lemma IdsStep(ids: set<string>, e: Event, id: string)
    ensures id in ids + IdsOf(e) <==> id in ids || Declares(e, id)
  {
  }

  lemma RefsStep(refs: seq<string>, e: Event, insideRef: bool, reference: string)
    ensures reference in refs + RefsOf(e, insideRef) <==> reference in refs || (ReadsAs(e, reference) && insideRef)
  {
  }

  lemma FaultsStep(violations: seq<Violation>, e: Event)
    ensures violations + FaultsOf(e) == [] <==> violations == [] && !Unidentified(e)
  {
  }

  /** What the flags of the loop stand for, but for those that follow CORE-CONTENT. */
  ghost predicate FlagsMean(f: Flags, events: seq<Event>) {
    && (f.foundRoot <==> Mentions(events, ReqIf))
    && (f.foundHeader <==> Mentions(events, TheHeader))
    && (f.foundCore <==> Mentions(events, CoreContent))
    && (f.rightNamespace <==> RootInNamespace(events))
    && (f.insideRef <==> InReference(events))
  }

  lemma FlagsMeanSnoc(f: Flags, events: seq<Event>, e: Event)
    requires FlagsMean(f, events)
    ensures FlagsMean(FlagsAfter(f, e), events + [e])
  {
    PartsStep(f, e);
    NamespaceStep(f, e);
    InsideRefStep(f, e);
    MentionsSnoc(events, e, ReqIf);
    MentionsSnoc(events, e, TheHeader);
    MentionsSnoc(events, e, CoreContent);
    SinceSnoc(events, e, BeginsRightRoot, BeginsRoot);
    SinceSnoc(events, e, BeginsReference, EndsReference);
  }

  /** Every element that must carry an identifier does. */
  ghost predicate Identified(events: seq<Event>) {
    forall e :: e in events ==> !Unidentified(e)
  }

  /** What the loop has collected. */
  lemma {:induction false} ScanMeans(events: seq<Event>)
    ensures FlagsMean(ScanAll(START, events).flags, events)
    ensures ScanAll(START, events).violations == [] <==> Identified(events)
    ensures forall id :: id in ScanAll(START, events).ids <==> DeclaredIn(events, id)
    ensures forall r :: r in ScanAll(START, events).refs <==> RefersTo(events, r)
  {
    if events == [] {
    } else {
      var front, last := events[..|events| - 1], events[|events| - 1];
      var s := ScanAll(START, front);
      assert events == front + [last];
      ScanMeans(front);
      FlagsMeanSnoc(s.flags, front, last);
      FaultsStep(s.violations, last);
      forall id
        ensures id in ScanAll(START, events).ids <==> DeclaredIn(events, id)
      {
        IdsStep(s.ids, last, id);
        DeclaredInSnoc(front, last, id);
      }
      forall r
        ensures r in ScanAll(START, events).refs <==> RefersTo(events, r)
      {
        RefsStep(s.refs, last, s.flags.insideRef, r);
        RefersToSnoc(front, last, r);
      }
    }
  }

  /** Every reference is to a declared object. */
  ghost predicate EveryReferenceResolves(events: seq<Event>) {
    forall r :: RefersTo(events, r) ==> DeclaredIn(events, r)
  }

  /** Everything the validator asks for, but for the place of the objects. */
  ghost predicate Sound(events: seq<Event>) {
    && RootInNamespace(events) && Mentions(events, TheHeader) && Mentions(events, CoreContent)
    && Identified(events) && EveryReferenceResolves(events)
  }

  lemma VerdictMeans(events: seq<Event>)
    ensures Accepts(events) <==> Sound(events) && ScanAll(START, events).flags.foundObjects
  {
    var s := ScanAll(START, events);
    ScanMeans(events);
    RootIsMentioned(events);
    NoneDangle(s.refs, s.ids);
    NoneUnresolved(s.refs, s.ids, events);
    VerdictIsEmpty(s);
  }

  lemma NoneUnresolved(refs: seq<string>, ids: set<string>, events: seq<Event>)
    requires forall id :: id in ids <==> DeclaredIn(events, id)
    requires forall r :: r in refs <==> RefersTo(events, r)
    ensures (forall r :: r in refs ==> r in ids) <==> EveryReferenceResolves(events)
  {
    if forall r :: r in refs ==> r in ids {
      forall r | RefersTo(events, r)
        ensures DeclaredIn(events, r)
      {
        assert r in refs;
      }
    }
  }

  lemma RootIsMentioned(events: seq<Event>)
    ensures RootInNamespace(events) ==> Mentions(events, ReqIf)
  {
  }

  lemma VerdictIsEmpty(s: Scan)
    ensures Verdict(s) == [] <==>
              && s.violations == [] && Dangling(s.refs, s.ids) == []
              && s.flags.foundRoot && s.flags.rightNamespace && s.flags.foundHeader && s.flags.foundCore
              && s.flags.foundObjects
  {
  }

  // ----- Documents as trees ---------------------------------------------------------

  datatype Tree =
    | Element(name: Tag, attributes: Attributes, kids: seq<Tree>)
    | SelfClosing(name: Tag, attributes: Attributes)
    | Characters(text: string)

  function Flatten(t: Tree): seq<Event>
    decreases t
  {
    match t
    case Element(name, attributes, kids) => [Start(name, attributes)] + FlattenAll(kids) + [End(name)]
    case SelfClosing(name, attributes) => [Empty(name, attributes)]
    case Characters(text) => [Text(text)]
  }

  function FlattenAll(ts: seq<Tree>): seq<Event>
    decreases ts
  {
    if ts == [] then [] else Flatten(ts[0]) + FlattenAll(ts[1..])
  }

  lemma {:induction false} FlattenConcat(a: seq<Tree>, b: seq<Tree>)
    ensures FlattenAll(a + b) == FlattenAll(a) + FlattenAll(b)
  {
    if a == [] {
      assert a + b == b;
    } else {
      assert (a + b)[1..] == a[1..] + b;
      FlattenConcat(a[1..], b);
    }
  }

  // ----- Where objects are seen -----------------------------------------------------

  /**
   Whether reading the tree finds the SPEC-OBJECTS, and whether CORE-CONTENT is open after it, where
   `open` says whether it was open before.  No depth is asked for: any CORE-CONTENT that ends shuts it.
   */
  function Sees(t: Tree, open: bool): (bool, bool)
    decreases t
  {
    match t
    case Element(name, _, kids) =>
      var (found, stays) := SeesAll(kids, open || name == CoreContent);
      (found || (name == SpecObjects && open), stays && name != CoreContent)
    case SelfClosing(name, _) => (name == SpecObjects && open, open && name != CoreContent)
    case Characters(_) => (false, open)
  }

  function SeesAll(ts: seq<Tree>, open: bool): (bool, bool)
    decreases ts
  {
    if ts == [] then (false, open)
    else
      var (found, stays) := Sees(ts[0], open);
      var (more, last) := SeesAll(ts[1..], stays);
      (found || more, last)
  }

  /** A reference element holding one piece of text. */
  predicate IsReference(t: Tree) {
    && t.Element? && t.name == SpecObjectRef && |t.kids| == 1 && t.kids[0].Characters?
    && t.kids[0].text != "" && Trimmed(t.kids[0].text)
  }

  predicate Fit(name: Tag, attributes: Attributes) {
    && !name.ReqIf? && !name.TheHeader? && !name.CoreContent?
    && (MustBeIdentified(name) ==> Identifier(attributes) != "")
  }

  /** What may stand inside the two parts of a document. */
  predicate Content(t: Tree)
    decreases t
  {
    match t
    case Element(name, attributes, kids) =>
      if name == SpecObjectRef then IsReference(t)
      else Fit(name, attributes) && ContentAll(kids)
    case SelfClosing(name, attributes) => Fit(name, attributes)
    case Characters(_) => true
  }

  predicate ContentAll(ts: seq<Tree>)
    decreases ts
  {
    ts == [] || (Content(ts[0]) && ContentAll(ts[1..]))
  }

  /** The objects declared in a tree. */
  function Ids(t: Tree): set<string>
    decreases t
  {
    match t
    case Element(name, attributes, kids) => OwnIds(name, attributes) + IdsAll(kids)
    case SelfClosing(name, attributes) => OwnIds(name, attributes)
    case Characters(_) => {}
  }

  function IdsAll(ts: seq<Tree>): set<string>
    decreases ts
  {
    if ts == [] then {} else Ids(ts[0]) + IdsAll(ts[1..])
  }

  /** The references in a tree, in order. */
  function Refs(t: Tree): seq<string>
    decreases t
  {
    match t
    case Element(name, attributes, kids) => if IsReference(t) then [kids[0].text] else RefsAll(kids)
    case SelfClosing(_, _) => []
    case Characters(_) => []
  }

  function RefsAll(ts: seq<Tree>): seq<string>
    decreases ts
  {
    if ts == [] then [] else Refs(ts[0]) + RefsAll(ts[1..])
  }

  predicate HasObjects(t: Tree)
    decreases t
  {
    match t
    case Element(name, _, kids) => name == SpecObjects || HasObjectsAll(kids)
    case SelfClosing(name, _) => name == SpecObjects
    case Characters(_) => false
  }

  predicate HasObjectsAll(ts: seq<Tree>)
    decreases ts
  {
    ts != [] && (HasObjects(ts[0]) || HasObjectsAll(ts[1..]))
  }

  // ----- What the loop finds in a tree ------------------------------------------------

  lemma {:induction false} ScanConcat(s: Scan, a: seq<Event>, b: seq<Event>)
    ensures ScanAll(s, a + b) == ScanAll(ScanAll(s, a), b)
  {
    if b == [] {
      assert a + b == a;
    } else {
      assert (a + b)[..|a + b| - 1] == a + b[..|b| - 1];
      ScanConcat(s, a, b[..|b| - 1]);
    }
  }

  lemma ScanOne(s: Scan, e: Event)
    ensures ScanAll(s, [e]) == Step(s, e)
  {
    assert [e][..0] == [];
    assert ScanAll(s, []) == s;
  }

  /** `t` is `s` after reading something that declares `ids` and refers to `refs`. */
  ghost predicate Gains(s: Scan, t: Scan, ids: set<string>, refs: seq<string>, objects: bool) {
    && t.flags == s.flags.(foundObjects := s.flags.foundObjects || (s.flags.insideCore && objects))
    && t.ids == s.ids + ids
    && t.refs == s.refs + refs
    && t.violations == s.violations
  }

  lemma GainsTwice(s: Scan, t: Scan, u: Scan, ids: set<string>, refs: seq<string>, objects: bool,
                   moreIds: set<string>, moreRefs: seq<string>, moreObjects: bool)
    requires Gains(s, t, ids, refs, objects) && Gains(t, u, moreIds, moreRefs, moreObjects)
    ensures Gains(s, u, ids + moreIds, refs + moreRefs, objects || moreObjects)
  {
    assert s.refs + refs + moreRefs == s.refs + (refs + moreRefs);
  }

  /** Reading an element is reading its start, its children and its end. */
  lemma ScanElement(s: Scan, t: Tree)
    requires t.Element?
    ensures ScanAll(s, Flatten(t))
            == Step(ScanAll(Step(s, Start(t.name, t.attributes)), FlattenAll(t.kids)), End(t.name))
  {
    var start, inner, end := [Start(t.name, t.attributes)], FlattenAll(t.kids), [End(t.name)];
    ScanConcat(s, start + inner, end);
    ScanConcat(s, start, inner);
    ScanOne(s, start[0]);
    ScanOne(ScanAll(s, start + inner), end[0]);
  }

  /** The part of the flags that follows CORE-CONTENT, after something well nested. */
  ghost predicate Follows(f: Flags, g: Flags, seen: (bool, bool)) {
    && g.depth == f.depth && (g.foundObjects <==> f.foundObjects || seen.0) && (g.insideCore <==> seen.1)
    && (g.insideCore ==> f.insideCore && g.coreDepth == f.coreDepth)
  }

  lemma FollowsAround(f: Flags, name: Tag, attributes: Attributes, g: Flags, seen: (bool, bool))
    requires Follows(FlagsAfter(f, Start(name, attributes)), g, seen)
    ensures Follows(f, FlagsAfter(g, End(name)),
                    (seen.0 || (name == SpecObjects && f.insideCore), seen.1 && name != CoreContent))
  {
  }

  lemma FollowsEmpty(f: Flags, name: Tag, attributes: Attributes)
    ensures Follows(f, FlagsAfter(f, Empty(name, attributes)),
                    (name == SpecObjects && f.insideCore, f.insideCore && name != CoreContent))
  {
  }

  /** The flags, and the recorded depth with them, see the objects exactly where `Sees` does. */
  lemma {:induction false} ScanSees(s: Scan, t: Tree)
    ensures Follows(s.flags, ScanAll(s, Flatten(t)).flags, Sees(t, s.flags.insideCore))
    decreases t
  {
    match t
    case Element(name, attributes, kids) =>
      var begun := Step(s, Start(name, attributes));
      ScanElement(s, t);
      ScanSeesAll(begun, kids);
      FollowsAround(s.flags, name, attributes, ScanAll(begun, FlattenAll(kids)).flags,
                    SeesAll(kids, begun.flags.insideCore));
    case SelfClosing(name, attributes) =>
      ScanOne(s, Empty(name, attributes));
      FollowsEmpty(s.flags, name, attributes);
    case Characters(text) =>
      ScanOne(s, Text(text));
  }

  lemma {:induction false} ScanSeesAll(s: Scan, ts: seq<Tree>)
    ensures Follows(s.flags, ScanAll(s, FlattenAll(ts)).flags, SeesAll(ts, s.flags.insideCore))
    decreases ts
  {
    if ts == [] {
    } else {
      ScanConcat(s, Flatten(ts[0]), FlattenAll(ts[1..]));
      ScanSees(s, ts[0]);
      ScanSeesAll(ScanAll(s, Flatten(ts[0])), ts[1..]);
    }
  }

  /**
   Any document at all is accepted exactly when its last root is in the namespace, a header and a core
   occur, every element that must carry an identifier does, every text read as a reference names a
   declared object, and SPEC-OBJECTS is seen.
   */
  lemma DocumentIsAccepted(t: Tree)
    ensures Accepts(Flatten(t)) <==> Sound(Flatten(t)) && Sees(t, false).0
  {
    VerdictMeans(Flatten(t));
    ScanSees(START, t);
  }

  lemma StepEmpty(s: Scan, name: Tag, attributes: Attributes)
    requires !s.flags.insideRef && Fit(name, attributes)
    ensures Gains(s, Step(s, Empty(name, attributes)), OwnIds(name, attributes), [], name == SpecObjects)
  {
  }

  lemma StepText(s: Scan, text: string)
    requires !s.flags.insideRef
    ensures Gains(s, Step(s, Text(text)), {}, [], false)
  {
  }

  /** Reading a fit element adds what it declares itself to what its children hold. */
  lemma StepAround(s: Scan, name: Tag, attributes: Attributes, inner: Scan,
                   ids: set<string>, refs: seq<string>, objects: bool)
    requires !s.flags.insideRef && name != SpecObjectRef && Fit(name, attributes)
    requires Gains(Step(s, Start(name, attributes)), inner, ids, refs, objects)
    ensures Gains(s, Step(inner, End(name)), OwnIds(name, attributes) + ids, refs, name == SpecObjects || objects)
  {
    assert s.refs + [] == s.refs && inner.refs + [] == inner.refs;
  }

  lemma FlattenText(kids: seq<Tree>)
    requires |kids| == 1 && kids[0].Characters?
    ensures FlattenAll(kids) == [Text(kids[0].text)]
  {
    assert FlattenAll(kids[1..]) == [];
  }

  lemma StepsOfReference(s: Scan, attributes: Attributes, text: string)
    requires !s.flags.insideRef && text != "" && Trim(text) == text
    ensures var t := Step(Step(Step(s, Start(SpecObjectRef, attributes)), Text(text)), End(SpecObjectRef));
            Gains(s, t, {}, [text], false)
  {
  }

  lemma ScanReference(s: Scan, t: Tree)
    requires !s.flags.insideRef && IsReference(t)
    ensures Gains(s, ScanAll(s, Flatten(t)), {}, Refs(t), false)
  {
    var text := t.kids[0].text;
    ScanElement(s, t);
    FlattenText(t.kids);
    ScanOne(Step(s, Start(t.name, t.attributes)), Text(text));
    TrimOfTrimmed("", text);
    assert "" + text == text;
    StepsOfReference(s, t.attributes, text);
  }

  lemma ReferenceDeclaresNothing(t: Tree)
    requires IsReference(t)
    ensures Ids(t) == {} && !HasObjects(t)
  {
    assert IdsAll(t.kids) == Ids(t.kids[0]) + IdsAll(t.kids[1..]);
    assert HasObjectsAll(t.kids) == (HasObjects(t.kids[0]) || HasObjectsAll(t.kids[1..]));
  }

  /** The loop finds the identifiers and references of a tree, and is back where it was. */
  lemma {:induction false} ScanContent(s: Scan, t: Tree)
    requires !s.flags.insideRef && Content(t)
    ensures Gains(s, ScanAll(s, Flatten(t)), Ids(t), Refs(t), HasObjects(t))
    decreases t
  {
    match t
    case Element(name, attributes, kids) =>
      if name == SpecObjectRef {
        ScanReference(s, t);
        ReferenceDeclaresNothing(t);
      } else {
        var begun := Step(s, Start(name, attributes));
        ScanElement(s, t);
        ScanContentAll(begun, kids);
        StepAround(s, name, attributes, ScanAll(begun, FlattenAll(kids)),
                   IdsAll(kids), RefsAll(kids), HasObjectsAll(kids));
      }
    case SelfClosing(name, attributes) =>
      ScanOne(s, Empty(name, attributes));
      StepEmpty(s, name, attributes);
    case Characters(text) =>
      ScanOne(s, Text(text));
      StepText(s, text);
  }

  lemma {:induction false} ScanContentAll(s: Scan, ts: seq<Tree>)
    requires !s.flags.insideRef && ContentAll(ts)
    ensures Gains(s, ScanAll(s, FlattenAll(ts)), IdsAll(ts), RefsAll(ts), HasObjectsAll(ts))
    decreases ts
  {
    if ts == [] {
    } else {
      var t := ScanAll(s, Flatten(ts[0]));
      ScanConcat(s, Flatten(ts[0]), FlattenAll(ts[1..]));
      ScanContent(s, ts[0]);
      ScanContentAll(t, ts[1..]);
      GainsTwice(s, t, ScanAll(t, FlattenAll(ts[1..])), Ids(ts[0]), Refs(ts[0]), HasObjects(ts[0]),
                 IdsAll(ts[1..]), RefsAll(ts[1..]), HasObjectsAll(ts[1..]));
    }
  }

  function Header(kids: seq<Tree>): Tree {
    Element(TheHeader, [], kids)
  }

  function Core(kids: seq<Tree>): Tree {
    Element(CoreContent, [], kids)
  }

  function Document(attributes: Attributes, header: seq<Tree>, core: seq<Tree>): Tree {
    Element(ReqIf, attributes, [Header(header), Core(core)])
  }

  lemma StepBegin(s: Scan, name: Tag, attributes: Attributes)
    requires name.ReqIf? || name.TheHeader? || name.CoreContent?
    ensures var t := Step(s, Start(name, attributes));
            t.ids == s.ids && t.refs == s.refs && t.violations == s.violations
  {
  }

  lemma StepEnd(s: Scan, name: Tag)
    ensures var t := Step(s, End(name));
            t.ids == s.ids && t.refs == s.refs && t.violations == s.violations
  {
  }

  /** `t` is `s` after reading children, with other flags. */
  ghost predicate Collects(s: Scan, t: Scan, kids: seq<Tree>) {
    t.ids == s.ids + IdsAll(kids) && t.refs == s.refs + RefsAll(kids) && t.violations == s.violations
  }

  /** Reading one of the outer elements, but for its flags. */
  lemma ScanOuter(s: Scan, name: Tag, attributes: Attributes, kids: seq<Tree>)
    requires name.TheHeader? || name.CoreContent?
    requires !s.flags.insideRef && ContentAll(kids)
    ensures var t := ScanAll(s, Flatten(Element(name, attributes, kids)));
            var begun := Step(s, Start(name, attributes)).flags;
            && Collects(s, t, kids)
            && t.flags == FlagsAfter(begun.(foundObjects := begun.foundObjects
                                                            || (begun.insideCore && HasObjectsAll(kids))), End(name))
  {
    var begun := Step(s, Start(name, attributes));
    ScanElement(s, Element(name, attributes, kids));
    StepBegin(s, name, attributes);
    ScanContentAll(begun, kids);
    StepEnd(ScanAll(begun, FlattenAll(kids)), name);
  }

  lemma ScanHeader(s: Scan, kids: seq<Tree>)
    requires !s.flags.insideRef && ContentAll(kids)
    ensures var t := ScanAll(s, Flatten(Header(kids)));
            && Collects(s, t, kids)
            && t.flags == s.flags.(foundHeader := true,
                                   foundObjects := s.flags.foundObjects || (s.flags.insideCore && HasObjectsAll(kids)))
  {
    ScanOuter(s, TheHeader, [], kids);
  }

  lemma ScanCore(s: Scan, kids: seq<Tree>)
    requires !s.flags.insideRef && ContentAll(kids)
    ensures var t := ScanAll(s, Flatten(Core(kids)));
            && Collects(s, t, kids)
            && t.flags == s.flags.(foundCore := true, foundObjects := s.flags.foundObjects || HasObjectsAll(kids),
                                   insideCore := false, coreDepth := s.flags.depth + 1)
  {
    ScanOuter(s, CoreContent, [], kids);
  }

  lemma ScanTwo(s: Scan, name: Tag, attributes: Attributes, a: Tree, b: Tree)
    ensures ScanAll(s, Flatten(Element(name, attributes, [a, b])))
            == Step(ScanAll(ScanAll(Step(s, Start(name, attributes)), Flatten(a)), Flatten(b)), End(name))
  {
    var kids := [a, b];
    assert kids[1..] == [b] && [b][1..] == [];
    assert FlattenAll([b]) == Flatten(b) + [];
    assert FlattenAll(kids) == Flatten(a) + Flatten(b);
    ScanElement(s, Element(name, attributes, kids));
    ScanConcat(Step(s, Start(name, attributes)), Flatten(a), Flatten(b));
  }

  lemma ScanParts(s: Scan, header: seq<Tree>, core: seq<Tree>)
    requires !s.flags.insideRef && !s.flags.insideCore && ContentAll(header) && ContentAll(core)
    requires s.ids == {} && s.refs == [] && s.violations == []
    ensures var u := ScanAll(ScanAll(s, Flatten(Header(header))), Flatten(Core(core)));
            && u.flags.foundRoot == s.flags.foundRoot && u.flags.rightNamespace == s.flags.rightNamespace
            && u.flags.foundHeader && u.flags.foundCore
            && u.flags.foundObjects == (s.flags.foundObjects || HasObjectsAll(core))
            && u.ids == IdsAll(header) + IdsAll(core) && u.refs == RefsAll(header) + RefsAll(core)
            && u.violations == []
  {
    var t := ScanAll(s, Flatten(Header(header)));
    ScanHeader(s, header);
    ScanCore(t, core);
    CollectsTwice(s, t, ScanAll(t, Flatten(Core(core))), header, core);
  }

  lemma BeginDocument(attributes: Attributes)
    ensures var s := Step(START, Start(ReqIf, attributes));
            && s.ids == {} && s.refs == [] && s.violations == []
            && s.flags == START.flags.(foundRoot := true, rightNamespace := HasNamespace(attributes), depth := 1)
  {
    StepBegin(START, ReqIf, attributes);
  }

  lemma EndDocument(s: Scan)
    ensures var t := Step(s, End(ReqIf));
            && t.ids == s.ids && t.refs == s.refs && t.violations == s.violations
            && t.flags == s.flags.(depth := s.flags.depth - 1)
  {
    StepEnd(s, ReqIf);
  }

  lemma ScanDocument(attributes: Attributes, header: seq<Tree>, core: seq<Tree>)
    requires ContentAll(header) && ContentAll(core)
    ensures var s := ScanAll(START, Flatten(Document(attributes, header, core)));
            && s.flags.foundRoot && s.flags.foundHeader && s.flags.foundCore && s.violations == []
            && s.flags.rightNamespace == HasNamespace(attributes)
            && s.flags.foundObjects == HasObjectsAll(core)
            && s.ids == IdsAll(header) + IdsAll(core) && s.refs == RefsAll(header) + RefsAll(core)
  {
    ScanTwo(START, ReqIf, attributes, Header(header), Core(core));
    var s := Step(START, Start(ReqIf, attributes));
    BeginDocument(attributes);
    ScanParts(s, header, core);
    EndDocument(ScanAll(ScanAll(s, Flatten(Header(header))), Flatten(Core(core))));
  }

  lemma CollectsTwice(s: Scan, t: Scan, u: Scan, header: seq<Tree>, core: seq<Tree>)
    requires s.ids == {} && s.refs == [] && s.violations == []
    requires Collects(s, t, header) && Collects(t, u, core)
    ensures u.ids == IdsAll(header) + IdsAll(core) && u.refs == RefsAll(header) + RefsAll(core)
    ensures u.violations == []
  {
    assert [] + RefsAll(header) == RefsAll(header);
  }

  /**
   A document with a header and a core is accepted exactly when its root is in the namespace, the
   core holds the objects, and every reference is to an object declared somewhere in it.
   */
  lemma PlainDocumentIsAccepted(attributes: Attributes, header: seq<Tree>, core: seq<Tree>)
    requires ContentAll(header) && ContentAll(core)
    ensures Accepts(Flatten(Document(attributes, header, core))) <==>
              && HasNamespace(attributes)
              && HasObjectsAll(core)
              && forall r :: r in RefsAll(header) + RefsAll(core) ==> r in IdsAll(header) + IdsAll(core)
  {
    ScanDocument(attributes, header, core);
    NoneDangle(RefsAll(header) + RefsAll(core), IdsAll(header) + IdsAll(core));
  }

  /** Content neither opens CORE-CONTENT nor shuts it. */
  lemma {:induction false} ContentSees(t: Tree, open: bool)
    requires Content(t)
    ensures Sees(t, open) == (open && HasObjects(t), open)
    decreases t
  {
    match t
    case Element(name, _, kids) =>
      if name == SpecObjectRef {
        ReferenceDeclaresNothing(t);
        assert SeesAll(kids, open) == (false, open) by {
          assert kids[1..] == [] && Sees(kids[0], open) == (false, open);
        }
      } else {
        ContentSeesAll(kids, open);
      }
    case SelfClosing(_, _) =>
    case Characters(_) =>
  }

  lemma {:induction false} ContentSeesAll(ts: seq<Tree>, open: bool)
    requires ContentAll(ts)
    ensures SeesAll(ts, open) == (open && HasObjectsAll(ts), open)
    decreases ts
  {
    if ts == [] {
    } else {
      ContentSees(ts[0], open);
      ContentSeesAll(ts[1..], open);
    }
  }

  lemma SeesTwo(a: Tree, b: Tree, open: bool)
    ensures SeesAll([a, b], open)
            == (Sees(a, open).0 || Sees(b, Sees(a, open).1).0, Sees(b, Sees(a, open).1).1)
  {
    assert [a, b][1..] == [b] && [b][1..] == [];
    assert SeesAll([b], Sees(a, open).1) == Sees(b, Sees(a, open).1);
  }

  predicate IsCore(t: Tree) {
    !t.Characters? && t.name == CoreContent
  }

  lemma CoreShuts(t: Tree, open: bool)
    requires IsCore(t)
    ensures !Sees(t, open).1
  {
  }

  lemma SeesElement(t: Tree, open: bool)
    requires t.Element? && t.name != SpecObjects
    ensures Sees(t, open).0 == SeesAll(t.kids, open || t.name == CoreContent).0
    ensures !IsCore(t) ==> Sees(t, open).1 == SeesAll(t.kids, open).1
  {
  }

  lemma NestedCoreHides(core: Tree, nested: Tree, objects: Tree, open: bool)
    requires IsCore(core) && core.Element? && core.kids == [nested, objects]
    requires Content(objects) && IsCore(nested) && !Sees(nested, true).0
    ensures !Sees(core, open).0
  {
    CoreShuts(nested, true);
    ContentSees(objects, false);
    SeesTwo(nested, objects, true);
    SeesElement(core, open);
  }

  lemma HeaderHides(header: Tree, core: Tree, root: Tree)
    requires header.Element? && header.name == TheHeader && ContentAll(header.kids) && !Sees(core, false).0
    requires root.Element? && root.name == ReqIf && root.kids == [header, core]
    ensures !Sees(root, false).0
  {
    ContentSeesAll(header.kids, false);
    SeesElement(header, false);
    SeesTwo(header, core, false);
    SeesElement(root, false);
  }

  /**
   The comments say that an element named CORE-CONTENT nested in another one does not end the
   outer scope early.  It does, self-closing or not: unless it holds objects itself, those which
   follow it go unseen and the document is refused.
   */
  lemma NestedCoreEndsTheScope(attributes: Attributes, header: seq<Tree>, nested: Tree, objects: Tree)
    requires ContentAll(header) && Content(objects) && IsCore(nested) && !Sees(nested, true).0
    ensures !Accepts(Flatten(Element(ReqIf, attributes, [Header(header), Core([nested, objects])])))
  {
    var core := Core([nested, objects]);
    var root := Element(ReqIf, attributes, [Header(header), core]);
    NestedCoreHides(core, nested, objects, false);
    HeaderHides(Header(header), core, root);
    DocumentIsAccepted(root);
  }
}
