/**
 * The page assembler of `DotnetApiDocs.ToYaml`: which top-level types get a page, what each
 * page holds and in which order, and the table-of-contents entries collected along the way.
 * The formatters' renderings and the parsed documentation comments are fields of the input
 * records; the files written are the result values.
 */
module DotnetApiDocs {
  import opened Wrappers
  import opened Sequences
  import opened Schema
  import opened TypeSystem
  import opened Toc

  /** What aborts the run. */
  datatype Fault =
    | NotSupported(kindName: string)   // NotSupportedException from DumpPage
    | NoInvokeMethod                   // InvalidOperationException from `First` on a delegate
    | NullReference                    // NullReferenceException from `comment.param`

  // ---------------------------------------------------------------------------
  // Which types get a page
  // ---------------------------------------------------------------------------

  /** The label switch: the five named kinds get their label, FunctionPointer shares Delegates. */
  function Label(kind: TypeKind): (r: TypeLabel)
    ensures r == NoLabel <==> kind.OtherKind?
    ensures r == Delegates <==> kind == Delegate || kind == FunctionPointer
    ensures r == Classes <==> kind == Class
    ensures r == Interfaces <==> kind == Interface
    ensures r == Structs <==> kind == Struct
    ensures r == Enums <==> kind == Enum
  {
    match kind
    case Class => Classes
    case Interface => Interfaces
    case Enum => Enums
    case Struct => Structs
    case Delegate => Delegates
    case FunctionPointer => Delegates
    case OtherKind(_) => NoLabel
  }

  const ModuleTypeName := "<Module>"
  const XamlHelperName := "GeneratedInternalTypeHelper"
  const XamlNamespace := "XamlGeneratedNamespace"

  /** A type is ignored when it is not public or is one of the compiler's and XAML's own. */
  predicate ShouldIgnoreType(t: TypeDefinition) {
    || t.accessibility != Public
    || t.name == ModuleTypeName || t.name == XamlHelperName
    || t.namespace == XamlNamespace
  }

  /** The loop reaches the page for `t`: it has a label and is not ignored. */
  predicate Emitted(t: TypeDefinition) {
    Label(t.kind) != NoLabel && !ShouldIgnoreType(t)
  }

  /** Exactly the public types of a labelled kind, other than the three generated ones, get a page. */
  lemma EmittedExactly(t: TypeDefinition)
    ensures Emitted(t) <==>
      && !t.kind.OtherKind?
      && t.accessibility == Public
      && t.name != "<Module>" && t.name != "GeneratedInternalTypeHelper"
      && t.namespace != "XamlGeneratedNamespace"
  {
  }

  // ---------------------------------------------------------------------------
  // Sections
  // ---------------------------------------------------------------------------

  /** `dictionary?.TryGetValue(key)`, null when the dictionary is null or the key is missing. */
  function TryGetValue(dictionary: Option<map<string, string>>, key: string): (r: Option<string>)
    ensures r.Some? <==> dictionary.Some? && key in dictionary.value
    ensures r.Some? ==> r.value == dictionary.value[key]
  {
    if dictionary.Some? && key in dictionary.value then Some(dictionary.value[key]) else None
  }

  /**
   * A Section whose body is one non-empty jump list or parameter list: what the Add helpers
   * emit.  They never give a parameter row facts of its own.
   */
  predicate ListSection(c: Component) {
    && c.Section?
    && |c.body| == 1
    && match c.body[0]
       case JumpList(items) => |items| > 0
       case ParameterList(items) => |items| > 0 && forall i :: 0 <= i < |items| ==> items[i].fact.None?
       case _ => false
  }

  /** A Section whose body is a non-empty run of text blocks: Examples, Remarks and See also. */
  predicate TextSection(c: Component) {
    && c.Section?
    && |c.body| > 0
    && forall i :: 0 <= i < |c.body| ==> c.body[i].TextBlock?
  }

  /** The sections an assembled page may hold: one layer of Section over leaves. */
  predicate FlatSection(c: Component) {
    ListSection(c) || TextSection(c)
  }

  /** A flat section holds no Section of its own and no keyed record. */
  lemma FlatSectionWellFormed(c: Component)
    requires FlatSection(c)
    ensures SectionsWithin(c, 1) && WellFormed(c)
    ensures FactsKeyed(c)
  {
    assert forall i :: 0 <= i < |c.body| ==> !c.body[i].Section? && !c.body[i].Fact?;
  }

  /** `AddTypeParameters`: nothing for no type parameters, else one row per parameter in order. */
  function TypeParametersSection(header: string, names: seq<string>, docs: Option<map<string, string>>): (r: seq<Component>)
    ensures |names| == 0 ==> r == []
    ensures |names| > 0 ==> |r| == 1 && ListSection(r[0]) && r[0].section == header
    ensures |names| > 0 ==> r[0].body[0].ParameterList? && |r[0].body[0].parameters| == |names|
    ensures |names| > 0 ==> forall i :: 0 <= i < |names| ==>
      && r[0].body[0].parameters[i].name == names[i]
      && r[0].body[0].parameters[i].description == TryGetValue(docs, names[i])
  {
    if |names| == 0 then []
    else
      var rows := seq(|names|, i requires 0 <= i < |names| =>
        ParameterItem(names[i], TryGetValue(docs, names[i]), None, None, None, false, None));
      [Section(header, [ParameterList(rows)])]
  }

  /** `AddParameterList`: nothing for no parameters, else one row per parameter with its type. */
  function ParameterListSection(header: string, parameters: seq<Parameter>, docs: Option<map<string, string>>): (r: seq<Component>)
    ensures |parameters| == 0 ==> r == []
    ensures |parameters| > 0 ==> |r| == 1 && ListSection(r[0]) && r[0].section == header
    ensures |parameters| > 0 ==> r[0].body[0].ParameterList? && |r[0].body[0].parameters| == |parameters|
    ensures |parameters| > 0 ==> forall i :: 0 <= i < |parameters| ==>
      && r[0].body[0].parameters[i].name == parameters[i].name
      && r[0].body[0].parameters[i].paramType == Some(Text(parameters[i].formattedType))
      && r[0].body[0].parameters[i].description == TryGetValue(docs, parameters[i].name)
  {
    if |parameters| == 0 then []
    else
      var rows := seq(|parameters|, i requires 0 <= i < |parameters| =>
        ParameterItem(parameters[i].name, TryGetValue(docs, parameters[i].name),
                      Some(Text(parameters[i].formattedType)), None, None, false, None));
      [Section(header, [ParameterList(rows)])]
  }

  /** `AddJumplist`: nothing for no members, else one row per member in declaration order (unsorted). */
  function JumplistSection(header: string, members: seq<Member>): (r: seq<Component>)
    ensures |members| == 0 ==> r == []
    ensures |members| > 0 ==> |r| == 1 && ListSection(r[0]) && r[0].section == header
    ensures |members| > 0 ==> r[0].body[0].JumpList? && |r[0].body[0].jumplist| == |members|
    ensures |members| > 0 ==> forall i :: 0 <= i < |members| ==>
      && r[0].body[0].jumplist[i].name == Text(members[i].signature)
      && r[0].body[0].jumplist[i].description == members[i].summary
  {
    if |members| == 0 then []
    else
      var rows := seq(|members|, i requires 0 <= i < |members| =>
        JumpListItem(Text(members[i].signature), members[i].summary, false));
      [Section(header, [JumpList(rows)])]
  }

  function TextBlocks(items: seq<string>): (r: seq<Component>)
    ensures |r| == |items|
    ensures forall i :: 0 <= i < |items| ==> r[i] == TextBlock(items[i])
  {
    seq(|items|, i requires 0 <= i < |items| => TextBlock(items[i]))
  }

  /** A section of one text block per entry, present only when the list is present and non-empty. */
  function TextListSection(header: string, items: Option<seq<string>>): (r: seq<Component>)
    ensures |r| <= 1
    ensures r != [] <==> items.Some? && |items.value| > 0
    ensures r != [] ==> TextSection(r[0]) && r[0].section == header && r[0].body == TextBlocks(items.value)
  {
    if items.Some? && |items.value| > 0 then [Section(header, TextBlocks(items.value))] else []
  }

  function Summary(comment: Option<XmlComment>): Option<string> {
    if comment.Some? then comment.value.summary else None
  }

  function Examples(comment: Option<XmlComment>): Option<seq<string>> {
    if comment.Some? then comment.value.example else None
  }

  function SeeAlso(comment: Option<XmlComment>): Option<seq<string>> {
    if comment.Some? then comment.value.seealso else None
  }

  function Remarks(comment: Option<XmlComment>): Option<string> {
    if comment.Some? then comment.value.remarks else None
  }

  function TypeParamDocs(comment: Option<XmlComment>): Option<map<string, string>> {
    if comment.Some? then comment.value.typeparam else None
  }

  function ParamDocs(comment: Option<XmlComment>): Option<map<string, string>> {
    if comment.Some? then comment.value.param else None
  }

  /** The Remarks section, present only when the remarks are neither null nor empty. */
  function RemarksSection(comment: Option<XmlComment>): (r: seq<Component>)
    ensures |r| <= 1
    ensures r != [] <==> Remarks(comment).Some? && Remarks(comment).value != ""
    ensures r != [] ==> TextSection(r[0]) && r[0] == Section("Remarks", [TextBlock(Remarks(comment).value)])
  {
    var remarks := Remarks(comment);
    if remarks.Some? && remarks.value != "" then [Section("Remarks", [TextBlock(remarks.value)])] else []
  }

  // ---------------------------------------------------------------------------
  // Kind-specific content
  // ---------------------------------------------------------------------------

  predicate IsPlainMethod(m: Member) { !m.isOperator && !m.isExplicitInterfaceImplementation }
  predicate IsOperatorMethod(m: Member) { m.isOperator }
  predicate IsExplicitMethod(m: Member) { m.isExplicitInterfaceImplementation }
  predicate IsStaticField(m: Member) { m.isStatic }

  /** A jump-list group of a class-like type: its header and its members in declaration order. */
  datatype MemberGroup = MemberGroup(header: string, members: seq<Member>)

  /** The seven jump-list groups of `DumpClassLike`, in the order it adds them. */
  function ClassLikeGroups(t: TypeDefinition): seq<MemberGroup> {
    [ MemberGroup("Constructors", t.constructors),
      MemberGroup("Fields", t.fields),
      MemberGroup("Properties", t.properties),
      MemberGroup("Methods", Where(t.methods, IsPlainMethod)),
      MemberGroup("Operators", Where(t.methods, IsOperatorMethod)),
      MemberGroup("Explicit Interface Implementations", Where(t.methods, IsExplicitMethod)),
      MemberGroup("Events", t.events) ]
  }

  /** One `AddJumplist` per group, in order. */
  function Jumplists(groups: seq<MemberGroup>): (r: seq<Component>)
    ensures |r| <= |groups|
    ensures forall i :: 0 <= i < |r| ==> ListSection(r[i])
    decreases |groups|
  {
    if groups == [] then [] else JumplistSection(groups[0].header, groups[0].members) + Jumplists(groups[1..])
  }

  /** `DumpClassLike`: type parameters, then the seven member groups in their fixed order. */
  function ClassLikeBody(t: TypeDefinition): seq<Component> {
    TypeParametersSection("Type Parameters", t.typeParameters, TypeParamDocs(t.comment))
    + Jumplists(ClassLikeGroups(t))
  }

  /** `DumpEnum`: one "Fields" parameter list of the static fields, their values as defaults. */
  function EnumBody(t: TypeDefinition): (r: seq<Component>)
    ensures var statics := Where(t.fields, IsStaticField);
      && (|statics| == 0 <==> r == [])
      && (|statics| > 0 ==>
            && |r| == 1 && ListSection(r[0]) && r[0].section == "Fields"
            && r[0].body[0].ParameterList? && |r[0].body[0].parameters| == |statics|
            && forall i :: 0 <= i < |statics| ==>
                 r[0].body[0].parameters[i] == ParameterItem(statics[i].name, statics[i].summary, None, None,
                                                             Some(statics[i].constantValue), false, None))
  {
    var statics := Where(t.fields, IsStaticField);
    if |statics| == 0 then []
    else
      var rows := seq(|statics|, i requires 0 <= i < |statics| =>
        ParameterItem(statics[i].name, statics[i].summary, None, None, Some(statics[i].constantValue), false, None));
      [Section("Fields", [ParameterList(rows)])]
  }

  /** `type.Methods.First(method => method.Name == "Invoke")`: the first method named Invoke. */
  function InvokeMethod(methods: seq<Member>): (r: Option<Member>)
    ensures r.None? <==> forall i :: 0 <= i < |methods| ==> methods[i].name != "Invoke"
    ensures r.Some? ==> r.value.name == "Invoke"
    ensures r.Some? ==> exists i :: (0 <= i < |methods| && methods[i] == r.value
      && forall j :: 0 <= j < i ==> methods[j].name != "Invoke")
    decreases |methods|
  {
    if methods == [] then None
    else if methods[0].name == "Invoke" then Some(methods[0])
    else
      var r := InvokeMethod(methods[1..]);
      assert r.Some? ==> exists i :: (0 <= i < |methods| && methods[i] == r.value
        && forall j :: 0 <= j < i ==> methods[j].name != "Invoke") by {
        if r.Some? {
          var k :| 0 <= k < |methods[1..]| && methods[1..][k] == r.value
            && forall j :: 0 <= j < k ==> methods[1..][j].name != "Invoke";
          assert methods[k + 1] == r.value;
          assert forall j :: 0 <= j < k + 1 ==> methods[j].name != "Invoke" by {
            forall j | 0 <= j < k + 1 ensures methods[j].name != "Invoke" {
              if j > 0 { assert methods[j] == methods[1..][j - 1]; }
            }
          }
        }
      }
      r
  }

  /**
   * `DumpDelegate` as written: the parameter documentation is read through `comment.param`
   * without a null check, so an undocumented delegate aborts the run.
   */
  function DelegateBodyAsWritten(t: TypeDefinition): (r: Result<seq<Component>, Fault>)
    ensures InvokeMethod(t.methods).None? ==> r == Failure(NoInvokeMethod)
    ensures InvokeMethod(t.methods).Some? && t.comment.None? ==> r == Failure(NullReference)
    ensures r.Success? <==> InvokeMethod(t.methods).Some? && t.comment.Some?
  {
    var typeParameters := TypeParametersSection("Type Parameters", t.typeParameters, TypeParamDocs(t.comment));
    match InvokeMethod(t.methods)
    case None => Failure(NoInvokeMethod)
    case Some(invoke) =>
      if t.comment.None? then Failure(NullReference)
      else Success(typeParameters + ParameterListSection("Parameters", invoke.parameters, t.comment.value.param))
  }

  /** `DumpDelegate` with `comment?.param`: type parameters, then the Invoke method's parameters. */
  function DelegateBody(t: TypeDefinition): (r: Result<seq<Component>, Fault>)
    ensures r.Success? <==> InvokeMethod(t.methods).Some?
    ensures r.Failure? ==> r.error == NoInvokeMethod
  {
    var typeParameters := TypeParametersSection("Type Parameters", t.typeParameters, TypeParamDocs(t.comment));
    match InvokeMethod(t.methods)
    case None => Failure(NoInvokeMethod)
    case Some(invoke) =>
      Success(typeParameters + ParameterListSection("Parameters", invoke.parameters, ParamDocs(t.comment)))
  }

  /** For a documented delegate the corrected body is the one the code builds. */
  lemma DelegateBodyAgrees(t: TypeDefinition)
    requires t.comment.Some?
    ensures DelegateBody(t) == DelegateBodyAsWritten(t)
  {
  }

  /** An undocumented delegate with an Invoke method aborts the run as written but gets a page when corrected. */
  lemma UndocumentedDelegateAborts(t: TypeDefinition)
    requires t.kind == Delegate && t.comment.None? && InvokeMethod(t.methods).Some?
    ensures DelegateBodyAsWritten(t) == Failure(NullReference)
    ensures DelegateBody(t).Success?
  {
  }

  /**
   * `DumpPage` as written: the content for the kind; a kind without content throws
   * NotSupportedException, and a delegate goes through `DumpDelegate` as written.
   */
  function KindBody(t: TypeDefinition): (r: Result<seq<Component>, Fault>)
    ensures (t.kind.Class? || t.kind.Struct? || t.kind.Interface?) ==> r == Success(ClassLikeBody(t))
    ensures t.kind.Enum? ==> r == Success(EnumBody(t))
    ensures t.kind.Delegate? ==> r == DelegateBodyAsWritten(t)
    ensures (t.kind.FunctionPointer? || t.kind.OtherKind?) ==> r == Failure(NotSupported(KindName(t.kind)))
  {
    match t.kind
    case Class => Success(ClassLikeBody(t))
    case Struct => Success(ClassLikeBody(t))
    case Interface => Success(ClassLikeBody(t))
    case Enum => Success(EnumBody(t))
    case Delegate => DelegateBodyAsWritten(t)
    case _ => Failure(NotSupported(KindName(t.kind)))
  }

  /** A delegate that the code as written cannot document: it has an Invoke method but no doc comment. */
  predicate UndocumentedDelegate(t: TypeDefinition) {
    t.kind == Delegate && t.comment.None? && InvokeMethod(t.methods).Some?
  }

  /** `DumpPage` with the corrected `DumpDelegate`. */
  function KindBodyCorrected(t: TypeDefinition): (r: Result<seq<Component>, Fault>)
    ensures t.kind.Delegate? ==> r == DelegateBody(t)
    ensures !t.kind.Delegate? ==> r == KindBody(t)
  {
    if t.kind.Delegate? then DelegateBody(t) else KindBody(t)
  }

  /** The two versions differ exactly on undocumented delegates, where only the corrected one succeeds. */
  lemma KindBodiesDiffer(t: TypeDefinition)
    ensures KindBodyCorrected(t) != KindBody(t) <==> UndocumentedDelegate(t)
    ensures UndocumentedDelegate(t) ==> KindBody(t) == Failure(NullReference) && KindBodyCorrected(t).Success?
  {
    if t.kind.Delegate? && t.comment.Some? { DelegateBodyAgrees(t); }
  }

  // ---------------------------------------------------------------------------
  // The page
  // ---------------------------------------------------------------------------

  /** `$"{type.ParentModule?.Name}.dll"`: a missing module interpolates as the empty string. */
  function AssemblyName(t: TypeDefinition): (r: string)
    ensures t.moduleName.Some? ==> r == t.moduleName.value + ".dll"
    ensures t.moduleName.None? ==> r == ".dll"
  {
    (if t.moduleName.Some? then t.moduleName.value else "") + ".dll"
  }

  /** The page's `fact`: the namespace, then the assembly. */
  function PageFacts(t: TypeDefinition): Facts {
    [("Namespace", Text(t.namespace)), ("Assembly", Text(AssemblyName(t)))]
  }

  /** The page body: declaration, Examples, Remarks, the kind's content, See also. */
  function PageBody(t: TypeDefinition, kindBody: seq<Component>): (r: seq<Component>)
    ensures |kindBody| + 1 <= |r| <= |kindBody| + 4
    ensures r[0] == Declaration(t.declaration, None)
  {
    [Declaration(t.declaration, None)]
    + TextListSection("Examples", Examples(t.comment))
    + RemarksSection(t.comment)
    + kindBody
    + TextListSection("See also", SeeAlso(t.comment))
  }

  /** The page of `t` around the given kind content, or the fault raised building that content. */
  function PageWith(t: TypeDefinition, content: Result<seq<Component>, Fault>): (r: Result<ReferencePage, Fault>)
    ensures r.Success? <==> content.Success?
    ensures r.Failure? ==> r.error == content.error
  {
    match content
    case Failure(f) => Failure(f)
    case Success(kindBody) =>
      Success(ReferencePage(
        t.fullTypeName, "csharp", t.displayName + " " + KindName(t.kind),
        PageBody(t, kindBody), Summary(t.comment), Some(PageFacts(t)), None))
  }

  /** The page written for an emitted type, or the fault that aborts the run, as the code stands. */
  function PageFor(t: TypeDefinition): (r: Result<ReferencePage, Fault>)
    ensures r.Success? <==> KindBody(t).Success?
    ensures r.Failure? ==> r.error == KindBody(t).error
  {
    PageWith(t, KindBody(t))
  }

  /** The page with the corrected `DumpDelegate`. */
  function PageForCorrected(t: TypeDefinition): (r: Result<ReferencePage, Fault>)
    ensures r.Success? <==> KindBodyCorrected(t).Success?
    ensures r.Failure? ==> r.error == KindBodyCorrected(t).error
  {
    PageWith(t, KindBodyCorrected(t))
  }

  /**
   * The corrected page agrees with the page as written on every type but an undocumented
   * delegate, which aborts as written and gets a page when corrected.
   */
  lemma PagesDiffer(t: TypeDefinition)
    ensures PageForCorrected(t) != PageFor(t) <==> UndocumentedDelegate(t)
    ensures UndocumentedDelegate(t) ==> PageFor(t) == Failure(NullReference) && PageForCorrected(t).Success?
  {
    KindBodiesDiffer(t);
  }

  /** The headers of the body's sections, in order. */
  function Headers(body: seq<Component>): (r: seq<string>)
    ensures |r| <= |body|
    decreases |body|
  {
    if body == [] then [] else (if body[0].Section? then [body[0].section] else []) + Headers(body[1..])
  }

  lemma {:induction false} HeadersAppend(a: seq<Component>, b: seq<Component>)
    ensures Headers(a + b) == Headers(a) + Headers(b)
    decreases |a|
  {
    if a == [] {
      assert a + b == b;
    } else {
      assert (a + b)[0] == a[0] && (a + b)[1..] == a[1..] + b;
      HeadersAppend(a[1..], b);
    }
  }

  lemma HeadersOfOne(c: Component)
    ensures Headers([c]) == if c.Section? then [c.section] else []
  {
    assert [c][1..] == [];
  }

  /** The headers of the class-like groups: the fixed order of the jump lists. */
  const ClassLikeOrder: seq<string> := [
    "Constructors", "Fields", "Properties", "Methods", "Operators",
    "Explicit Interface Implementations", "Events"]

  function GroupHeaders(groups: seq<MemberGroup>): (r: seq<string>)
    ensures |r| == |groups|
    ensures forall i :: 0 <= i < |groups| ==> r[i] == groups[i].header
  {
    seq(|groups|, i requires 0 <= i < |groups| => groups[i].header)
  }

  predicate NonEmptyGroup(g: MemberGroup) {
    |g.members| > 0
  }

  function Present(present: bool, header: string): seq<string> {
    if present then [header] else []
  }

  lemma ClassLikeGroupOrder(t: TypeDefinition)
    ensures GroupHeaders(ClassLikeGroups(t)) == ClassLikeOrder
  {
  }

  lemma JumplistHeaders(header: string, members: seq<Member>)
    ensures Headers(JumplistSection(header, members)) == Present(|members| > 0, header)
  {
    if |members| > 0 { HeadersOfOne(JumplistSection(header, members)[0]); }
  }

  /** Each group adds a section exactly when it has members, in group order, and every section is a list. */
  lemma {:induction false} JumplistsSections(groups: seq<MemberGroup>)
    ensures Headers(Jumplists(groups)) == GroupHeaders(Where(groups, NonEmptyGroup))
    ensures forall i :: 0 <= i < |Jumplists(groups)| ==> ListSection(Jumplists(groups)[i])
    decreases |groups|
  {
    if groups != [] {
      var head := JumplistSection(groups[0].header, groups[0].members);
      JumplistsSections(groups[1..]);
      JumplistHeaders(groups[0].header, groups[0].members);
      HeadersAppend(head, Jumplists(groups[1..]));
      assert Jumplists(groups) == head + Jumplists(groups[1..]);
    }
  }

  lemma {:induction false} WhereWithin(groups: seq<MemberGroup>, p: MemberGroup -> bool)
    ensures forall i :: 0 <= i < |Where(groups, p)| ==> Where(groups, p)[i] in groups
    decreases |groups|
  {
    if groups != [] { WhereWithin(groups[1..], p); }
  }

  lemma WhereGroupHeaders(groups: seq<MemberGroup>, p: MemberGroup -> bool)
    ensures forall i :: 0 <= i < |Where(groups, p)| ==> GroupHeaders(Where(groups, p))[i] in GroupHeaders(groups)
  {
    WhereWithin(groups, p);
    forall i | 0 <= i < |Where(groups, p)| ensures GroupHeaders(Where(groups, p))[i] in GroupHeaders(groups) {
      var j :| 0 <= j < |groups| && groups[j] == Where(groups, p)[i];
      assert GroupHeaders(groups)[j] == groups[j].header;
    }
  }

  /**
   * A class-like body lists Type Parameters when there are any, then a section for exactly
   * the non-empty member groups, in the fixed order Constructors, Fields, Properties, Methods,
   * Operators, Explicit Interface Implementations, Events.
   */
  lemma ClassLikeSections(t: TypeDefinition)
    ensures Headers(ClassLikeBody(t)) ==
      Present(|t.typeParameters| > 0, "Type Parameters") + GroupHeaders(Where(ClassLikeGroups(t), NonEmptyGroup))
    ensures forall i :: 0 <= i < |ClassLikeBody(t)| ==> ListSection(ClassLikeBody(t)[i])
  {
    var tp := TypeParametersSection("Type Parameters", t.typeParameters, TypeParamDocs(t.comment));
    var js := Jumplists(ClassLikeGroups(t));
    if |t.typeParameters| > 0 { HeadersOfOne(tp[0]); }
    JumplistsSections(ClassLikeGroups(t));
    HeadersAppend(tp, js);
    assert ClassLikeBody(t) == tp + js;
  }

  /** Every member of a group is listed in its jump list, at its own position: jump lists are not sorted. */
  lemma MethodsListedInOrder(t: TypeDefinition, i: nat)
    requires i < |Where(t.methods, IsPlainMethod)|
    ensures var section := JumplistSection("Methods", Where(t.methods, IsPlainMethod));
      section[0].body[0].jumplist[i].name == Text(Where(t.methods, IsPlainMethod)[i].signature)
  {
  }

  /** A delegate's content is at most its type parameters and its parameters: there is no return block. */
  lemma DelegateSections(t: TypeDefinition)
    requires DelegateBody(t).Success?
    ensures Headers(DelegateBody(t).value) ==
      Present(|t.typeParameters| > 0, "Type Parameters") + Present(|InvokeMethod(t.methods).value.parameters| > 0, "Parameters")
    ensures forall i :: 0 <= i < |DelegateBody(t).value| ==> ListSection(DelegateBody(t).value[i])
  {
    var invoke := InvokeMethod(t.methods).value;
    var tp := TypeParametersSection("Type Parameters", t.typeParameters, TypeParamDocs(t.comment));
    var ps := ParameterListSection("Parameters", invoke.parameters, ParamDocs(t.comment));
    assert DelegateBody(t).value == tp + ps;
    HeadersAppend(tp, ps);
    if |tp| > 0 { HeadersOfOne(tp[0]); }
    if |ps| > 0 { HeadersOfOne(ps[0]); }
  }

  /** The headers a kind's content may use. */
  predicate KindHeader(h: string) {
    h == "Type Parameters" || h == "Parameters" || h == "Fields" || h in ClassLikeOrder
  }

  /** What any kind's content holds: list sections under the kind headers. */
  lemma KindBodyShape(t: TypeDefinition)
    requires KindBody(t).Success?
    ensures forall i :: 0 <= i < |KindBody(t).value| ==> ListSection(KindBody(t).value[i])
    ensures forall i :: 0 <= i < |Headers(KindBody(t).value)| ==> KindHeader(Headers(KindBody(t).value)[i])
  {
    if t.kind.Class? || t.kind.Struct? || t.kind.Interface? {
      ClassLikeSections(t);
      WhereGroupHeaders(ClassLikeGroups(t), NonEmptyGroup);
      ClassLikeGroupOrder(t);
    } else if t.kind.Enum? {
      if |EnumBody(t)| > 0 { HeadersOfOne(EnumBody(t)[0]); }
    } else {
      DelegateBodyAgrees(t);
      DelegateSections(t);
    }
  }

  /** Two strings that differ at some position are different. */
  lemma DifferAt(a: string, b: string, i: nat)
    requires i < |a| && i < |b| && a[i] != b[i]
    ensures a != b
  {
  }

  /** The headers of the comment's own sections are none a kind's content uses. */
  lemma CommentHeadersAreNotKindHeaders()
    ensures !KindHeader("Examples") && !KindHeader("Remarks") && !KindHeader("See also")
  {
    // Only two kind headers share an initial with a comment header; the rest differ at once.
    DifferAt("Examples", "Explicit Interface Implementations", 2);
    DifferAt("Examples", "Events", 1);
  }

  /** The body of a page that is built. */
  lemma PageBodyIs(t: TypeDefinition)
    requires PageFor(t).Success?
    ensures PageFor(t).value.body == PageBody(t, KindBody(t).value)
  {
  }

  /** Each of the comment's own sections contributes its header exactly when it is present. */
  lemma CommentPartHeaders(comment: Option<XmlComment>)
    ensures Headers(TextListSection("Examples", Examples(comment))) ==
      Present(Examples(comment).Some? && |Examples(comment).value| > 0, "Examples")
    ensures Headers(RemarksSection(comment)) == Present(Remarks(comment).Some? && Remarks(comment).value != "", "Remarks")
    ensures Headers(TextListSection("See also", SeeAlso(comment))) ==
      Present(SeeAlso(comment).Some? && |SeeAlso(comment).value| > 0, "See also")
  {
    var ex := TextListSection("Examples", Examples(comment));
    var rm := RemarksSection(comment);
    var sa := TextListSection("See also", SeeAlso(comment));
    if ex != [] { HeadersOfOne(ex[0]); }
    if rm != [] { HeadersOfOne(rm[0]); }
    if sa != [] { HeadersOfOne(sa[0]); }
  }

  lemma HeadersAppend5(a: seq<Component>, b: seq<Component>, c: seq<Component>, d: seq<Component>, e: seq<Component>)
    ensures Headers(a + b + c + d + e) == Headers(a) + Headers(b) + Headers(c) + Headers(d) + Headers(e)
  {
    HeadersAppend(a, b);
    HeadersAppend(a + b, c);
    HeadersAppend(a + b + c, d);
    HeadersAppend(a + b + c + d, e);
  }

  /** The headers of a page body: the comment's sections around the kind's content. */
  lemma PageBodyHeaders(t: TypeDefinition, k: seq<Component>)
    ensures PageBody(t, k)[0] == Declaration(t.declaration, None)
    ensures Headers(PageBody(t, k)) ==
           Present(Examples(t.comment).Some? && |Examples(t.comment).value| > 0, "Examples")
           + Present(Remarks(t.comment).Some? && Remarks(t.comment).value != "", "Remarks")
           + Headers(k)
           + Present(SeeAlso(t.comment).Some? && |SeeAlso(t.comment).value| > 0, "See also")
  {
    var d := [Declaration(t.declaration, None)];
    var ex := TextListSection("Examples", Examples(t.comment));
    var rm := RemarksSection(t.comment);
    var sa := TextListSection("See also", SeeAlso(t.comment));
    assert PageBody(t, k) == d + ex + rm + k + sa;
    HeadersOfOne(d[0]);
    CommentPartHeaders(t.comment);
    HeadersOfParts(d, ex, rm, k, sa);
  }

  /** The headers of five parts put together, when the first has none. */
  lemma HeadersOfParts(d: seq<Component>, ex: seq<Component>, rm: seq<Component>, k: seq<Component>, sa: seq<Component>)
    requires Headers(d) == []
    ensures Headers(d + ex + rm + k + sa) == Headers(ex) + Headers(rm) + Headers(k) + Headers(sa)
  {
    HeadersAppend5(d, ex, rm, k, sa);
  }

  /**
   * The body opens with the declaration; Examples and Remarks follow only when non-empty;
   * then the kind's content; See also closes the body only when non-empty.
   */
  lemma PageBodyOrder(t: TypeDefinition)
    requires PageFor(t).Success?
    ensures var body := PageFor(t).value.body;
      && body[0] == Declaration(t.declaration, None)
      && Headers(body) ==
           Present(Examples(t.comment).Some? && |Examples(t.comment).value| > 0, "Examples")
           + Present(Remarks(t.comment).Some? && Remarks(t.comment).value != "", "Remarks")
           + Headers(KindBody(t).value)
           + Present(SeeAlso(t.comment).Some? && |SeeAlso(t.comment).value| > 0, "See also")
  {
    PageBodyIs(t);
    PageBodyHeaders(t, KindBody(t).value);
  }

  /** Examples, Remarks and See also appear on a page exactly when the comment has them. */
  lemma CommentSectionsIff(t: TypeDefinition)
    requires PageFor(t).Success?
    ensures "Examples" in Headers(PageFor(t).value.body) <==> Examples(t.comment).Some? && |Examples(t.comment).value| > 0
    ensures "Remarks" in Headers(PageFor(t).value.body) <==> Remarks(t.comment).Some? && Remarks(t.comment).value != ""
    ensures "See also" in Headers(PageFor(t).value.body) <==> SeeAlso(t.comment).Some? && |SeeAlso(t.comment).value| > 0
  {
    PageBodyOrder(t);
    KindBodyShape(t);
    CommentHeadersAreNotKindHeaders();
    var k := Headers(KindBody(t).value);
    assert "Examples" !in k && "Remarks" !in k && "See also" !in k;
    DifferAt("Examples", "Remarks", 0);
    DifferAt("Examples", "See also", 0);
    DifferAt("Remarks", "See also", 0);
  }

  /** The header of a page: id, language, title, summary and exactly the two facts. */
  lemma PageHeader(t: TypeDefinition)
    requires PageFor(t).Success?
    ensures var p := PageFor(t).value;
      && p.id == t.fullTypeName
      && p.languageId == "csharp"
      && p.title == t.displayName + " " + KindName(t.kind)
      && p.summary == (if t.comment.Some? then t.comment.value.summary else None)
      && p.metadata.Some? && |p.metadata.value| == 2 && DistinctKeys(p.metadata.value)
      && p.metadata.value[0] == ("Namespace", Text(t.namespace))
      && p.metadata.value[1] == ("Assembly", Text(AssemblyName(t)))
      && p.deprecated.None?
  {
  }

  /** The declaration that opens a page has no language of its own, so it is highlighted as C#. */
  lemma DeclarationHighlightedAsCSharp(t: TypeDefinition)
    requires PageFor(t).Success?
    ensures var p := PageFor(t).value;
      && p.body[0] == Declaration(t.declaration, None)
      && HighlightLanguage(p.body[0], p) == "csharp"
  {
    PageBodyIs(t);
    PageBodyHeaders(t, KindBody(t).value);
  }

  /** Every component is a flat section. */
  predicate AllFlat(s: seq<Component>) {
    forall i :: 0 <= i < |s| ==> FlatSection(s[i])
  }

  lemma AllFlatAppend(a: seq<Component>, b: seq<Component>)
    requires AllFlat(a) && AllFlat(b)
    ensures AllFlat(a + b)
  {
    forall i | 0 <= i < |a + b| ensures FlatSection((a + b)[i]) {
      if i < |a| { assert (a + b)[i] == a[i]; } else { assert (a + b)[i] == b[i - |a|]; }
    }
  }

  /** After the declaration, a page body holds only flat sections. */
  lemma PageBodyFlat(t: TypeDefinition, k: seq<Component>)
    requires AllFlat(k)
    ensures AllFlat(PageBody(t, k)[1..])
  {
    var ex := TextListSection("Examples", Examples(t.comment));
    var rm := RemarksSection(t.comment);
    var sa := TextListSection("See also", SeeAlso(t.comment));
    AllFlatAppend(ex, rm);
    AllFlatAppend(ex + rm, k);
    AllFlatAppend(ex + rm + k, sa);
    assert PageBody(t, k)[1..] == ex + rm + k + sa;
  }

  /**
   * Every component of an assembled page nests Sections at most one layer deep, so within the
   * schema's two, and holds no keyed record with a repeated key.
   */
  lemma PageComponentsWellFormed(t: TypeDefinition)
    requires PageFor(t).Success?
    ensures forall i :: 0 <= i < |PageFor(t).value.body| ==>
      && SectionsWithin(PageFor(t).value.body[i], 1)
      && WellFormed(PageFor(t).value.body[i])
      && FactsKeyed(PageFor(t).value.body[i])
  {
    KindBodyShape(t);
    PageBodyIs(t);
    var body := PageFor(t).value.body;
    PageBodyFlat(t, KindBody(t).value);
    forall i | 0 <= i < |body| ensures SectionsWithin(body[i], 1) && WellFormed(body[i]) && FactsKeyed(body[i]) {
      if i > 0 {
        assert body[i] == body[1..][i - 1];
        FlatSectionWellFormed(body[i]);
      }
    }
  }

  /** An assembled page is well formed exactly when the full type name is a valid Id. */
  lemma PageWellFormedIff(t: TypeDefinition)
    requires PageFor(t).Success?
    ensures WellFormedPage(PageFor(t).value) <==> ValidId(t.fullTypeName)
  {
    PageComponentsWellFormed(t);
    PageHeader(t);
  }

  /** A generic type's full name carries its arity after '`', which no Id may contain: its page is ill formed. */
  lemma GenericPageIllFormed(t: TypeDefinition, i: nat)
    requires PageFor(t).Success? && i < |t.fullTypeName| && t.fullTypeName[i] == '`'
    ensures !WellFormedPage(PageFor(t).value)
  {
    PageWellFormedIff(t);
    ValidIdRejects(t.fullTypeName, i);
  }

  /** A public function-pointer type passes the filter and then aborts the run. */
  lemma FunctionPointerAborts(t: TypeDefinition)
    requires t.kind == FunctionPointer && !ShouldIgnoreType(t)
    ensures Emitted(t)
    ensures PageFor(t) == Failure(NotSupported("FunctionPointer"))
  {
  }

  // ---------------------------------------------------------------------------
  // The run
  // ---------------------------------------------------------------------------

  /** The entry added for an emitted type: `(type.Namespace, label, typeName, $"{type.FullTypeName}.yml")`. */
  function TocEntryFor(t: TypeDefinition): TocEntry {
    TocEntry(t.namespace, Label(t.kind), t.displayName, t.fullTypeName + ".yml")
  }

  /** The pages written, the entries collected and the fault, if any, that ended the run. */
  datatype Outcome = Outcome(pages: seq<ReferencePage>, toc: seq<TocEntry>, fault: Option<Fault>)

  /** What builds the page of an emitted type: `PageFor` in the tool; any builder for the loop's own properties. */
  type PageBuilder = TypeDefinition -> Result<ReferencePage, Fault>

  /** One iteration of the loop over the types; nothing runs once a fault has been raised. */
  function Step(build: PageBuilder, prev: Outcome, t: TypeDefinition): (r: Outcome)
    ensures prev.pages <= r.pages && prev.toc <= r.toc
    ensures |r.pages| - |prev.pages| == |r.toc| - |prev.toc| <= 1
    ensures prev.fault.Some? ==> r == prev
  {
    if prev.fault.Some? || !Emitted(t) then prev
    else match build(t)
      case Failure(f) => prev.(fault := Some(f))
      case Success(page) => Outcome(prev.pages + [page], prev.toc + [TocEntryFor(t)], None)
  }

  /** The loop over the module's top-level types, in order. */
  function Run(build: PageBuilder, types: seq<TypeDefinition>): (r: Outcome)
    ensures |r.pages| == |r.toc|
    decreases |types|
  {
    if types == [] then Outcome([], [], None) else Step(build, Run(build, types[..|types| - 1]), types[|types| - 1])
  }

  /** Once a fault is raised the rest of the types change nothing. */
  lemma {:induction false} FaultIsFinal(build: PageBuilder, types: seq<TypeDefinition>, i: nat)
    requires i <= |types| && Run(build, types[..i]).fault.Some?
    ensures Run(build, types) == Run(build, types[..i])
    decreases |types| - i
  {
    if i < |types| {
      assert types[..i + 1][..i] == types[..i];
      FaultIsFinal(build, types, i + 1);
    } else {
      assert types[..i] == types;
    }
  }

  /** The table of contents file as last written: none until a page has been emitted. */
  function TocFile(le: (string, string) -> bool, toc: seq<TocEntry>): (r: Option<seq<TocNamespace>>)
    ensures r.Some? <==> |toc| > 0
  {
    if |toc| == 0 then None else Some(BuildToc(le, toc))
  }

  /** What a run leaves behind: the pages, the table of contents file, and the fault. */
  datatype Output = Output(pages: seq<ReferencePage>, toc: Option<seq<TocNamespace>>, fault: Option<Fault>)

  /** What `ToYaml` leaves behind for the module's top-level types. */
  function ToYamlResult(le: (string, string) -> bool, types: seq<TypeDefinition>): (r: Output)
    ensures r.toc.Some? <==> |r.pages| > 0
    ensures r.toc.Some? ==> |AllLinks(r.toc.value)| == |r.pages|
  {
    var run := Run(PageFor, types);
    BuildTocLinksEveryEntry(le, run.toc);
    Output(run.pages, TocFile(le, run.toc), run.fault)
  }

  /** `ToYaml`: one page per emitted type, in order, each adding one table-of-contents entry. */
  method ToYaml(le: (string, string) -> bool, types: seq<TypeDefinition>) returns (r: Output)
    ensures r == ToYamlResult(le, types)
  {
    var pages: seq<ReferencePage> := [];
    var toc: seq<TocEntry> := [];
    for i := 0 to |types|
      invariant Run(PageFor, types[..i]) == Outcome(pages, toc, None)
    {
      var t := types[i];
      assert types[..i + 1][..i] == types[..i];
      if !Emitted(t) {
        continue;
      }
      var page := AssemblePage(t);
      if page.Failure? {
        FaultIsFinal(PageFor, types, i + 1);
        return Output(pages, TocFile(le, toc), Some(page.error));
      }
      pages := pages + [page.value];
      toc := toc + [TocEntryFor(t)];
    }
    assert types[..|types|] == types;
    r := Output(pages, TocFile(le, toc), None);
  }

  /** Builds one page by appending to its body in the order the source adds the parts. */
  method AssemblePage(t: TypeDefinition) returns (r: Result<ReferencePage, Fault>)
    ensures r == PageFor(t)
  {
    var comment := t.comment;
    var body := [Declaration(t.declaration, None)];
    body := body + TextListSection("Examples", Examples(comment));
    body := body + RemarksSection(comment);
    match t.kind {
      case Class =>
        body := body + ClassLikeBody(t);
      case Struct =>
        body := body + ClassLikeBody(t);
      case Interface =>
        body := body + ClassLikeBody(t);
      case Enum =>
        body := body + EnumBody(t);
      case Delegate =>
        var before := body;
        var typeParameters := TypeParametersSection("Type Parameters", t.typeParameters, TypeParamDocs(comment));
        body := body + typeParameters;
        var invoke := InvokeMethod(t.methods);
        if invoke.None? {
          return Failure(NoInvokeMethod);
        }
        if comment.None? {
          return Failure(NullReference);
        }
        var parameters := ParameterListSection("Parameters", invoke.value.parameters, comment.value.param);
        body := body + parameters;
        assert body == before + (typeParameters + parameters);
      case _ =>
        return Failure(NotSupported(KindName(t.kind)));
    }
    body := body + TextListSection("See also", SeeAlso(comment));
    r := Success(ReferencePage(t.fullTypeName, "csharp", t.displayName + " " + KindName(t.kind),
                               body, Summary(comment), Some(PageFacts(t)), None));
  }

  // ---------------------------------------------------------------------------
  // Properties of the run
  // ---------------------------------------------------------------------------

  /** The builder succeeds on all the given types. */
  predicate AllPagesSucceed(build: PageBuilder, types: seq<TypeDefinition>) {
    forall i :: 0 <= i < |types| ==> build(types[i]).Success?
  }

  /** What one iteration does, case by case. */
  lemma StepCases(build: PageBuilder, prev: Outcome, t: TypeDefinition)
    ensures prev.fault.Some? || !Emitted(t) ==> Step(build, prev, t) == prev
    ensures prev.fault.None? && Emitted(t) && build(t).Failure? ==>
      Step(build, prev, t) == prev.(fault := Some(build(t).error))
    ensures prev.fault.None? && Emitted(t) && build(t).Success? ==>
      Step(build, prev, t) == Outcome(prev.pages + [build(t).value], prev.toc + [TocEntryFor(t)], None)
  {
  }

  lemma RunUnfold(build: PageBuilder, types: seq<TypeDefinition>)
    requires types != []
    ensures Run(build, types) == Step(build, Run(build, types[..|types| - 1]), types[|types| - 1])
  {
  }

  /**
   * A run that raises no fault writes one page for each emitted type, in order, and adds one
   * table-of-contents entry for each page; types that are not emitted leave no trace.
   */
  lemma {:induction false} RunEmitsEachType(build: PageBuilder, types: seq<TypeDefinition>)
    requires Run(build, types).fault.None?
    ensures var emitted := Where(types, Emitted);
      && AllPagesSucceed(build, emitted)
      && |Run(build, types).pages| == |emitted|
      && (forall i :: 0 <= i < |emitted| ==> Run(build, types).pages[i] == build(emitted[i]).value)
      && (forall i :: 0 <= i < |emitted| ==> Run(build, types).toc[i] == TocEntryFor(emitted[i]))
    decreases |types|
  {
    if types != [] {
      var init := types[..|types| - 1];
      var last := types[|types| - 1];
      RunUnfold(build, types);
      StepCases(build, Run(build, init), last);
      RunEmitsEachType(build, init);
      assert types == init + [last];
      WhereAppend(init, [last], Emitted);
      WhereSingleton(last, Emitted);
      var before := Where(init, Emitted);
      if Emitted(last) {
        var emitted := before + [last];
        assert Where(types, Emitted) == emitted;
        forall i | 0 <= i < |emitted|
          ensures build(emitted[i]).Success?
          ensures Run(build, types).pages[i] == build(emitted[i]).value
          ensures Run(build, types).toc[i] == TocEntryFor(emitted[i])
        {
          if i < |before| { assert emitted[i] == before[i]; } else { assert emitted[i] == last; }
        }
      } else {
        assert Where(types, Emitted) == before;
      }
    }
  }

  /**
   * The run stops at `types[i]`: everything before it ran without fault, its page cannot be
   * built, and the outcome is what was written before it together with that fault.
   */
  predicate StopsAt(build: PageBuilder, types: seq<TypeDefinition>, i: nat) {
    && i < |types|
    && Emitted(types[i])
    && build(types[i]).Failure?
    && Run(build, types[..i]).fault.None?
    && Run(build, types) == Run(build, types[..i]).(fault := Some(build(types[i]).error))
  }

  /** A run that raises a fault stops at the first emitted type whose page cannot be built. */
  lemma {:induction false} RunFaultsAtFirstFailure(build: PageBuilder, types: seq<TypeDefinition>)
    requires Run(build, types).fault.Some?
    ensures exists i :: StopsAt(build, types, i)
    decreases |types|
  {
    var init := types[..|types| - 1];
    var last := types[|types| - 1];
    RunUnfold(build, types);
    StepCases(build, Run(build, init), last);
    if Run(build, init).fault.Some? {
      RunFaultsAtFirstFailure(build, init);
      var i: nat :| StopsAt(build, init, i);
      assert init[..i] == types[..i] && init[i] == types[i];
      assert StopsAt(build, types, i);
    } else {
      var i := |types| - 1;
      assert types[..i] == init;
      assert StopsAt(build, types, i);
    }
  }

  /** Two builders that agree on every emitted type give the same run. */
  lemma {:induction false} RunsAgree(b1: PageBuilder, b2: PageBuilder, types: seq<TypeDefinition>)
    requires forall i :: 0 <= i < |types| && Emitted(types[i]) ==> b1(types[i]) == b2(types[i])
    ensures Run(b1, types) == Run(b2, types)
    decreases |types|
  {
    if types != [] {
      var init := types[..|types| - 1];
      assert forall i :: 0 <= i < |init| ==> init[i] == types[i];
      RunsAgree(b1, b2, init);
      RunUnfold(b1, types);
      RunUnfold(b2, types);
    }
  }

  /** Without undocumented delegates among the emitted types, the run as written is the corrected run. */
  lemma RunsAgreeWithoutUndocumentedDelegates(types: seq<TypeDefinition>)
    requires forall i :: 0 <= i < |types| && Emitted(types[i]) ==> !UndocumentedDelegate(types[i])
    ensures Run(PageFor, types) == Run(PageForCorrected, types)
  {
    forall i | 0 <= i < |types| && Emitted(types[i]) ensures PageFor(types[i]) == PageForCorrected(types[i]) {
      PagesDiffer(types[i]);
    }
    RunsAgree(PageFor, PageForCorrected, types);
  }

  /** One emitted undocumented delegate anywhere in the module makes the run as written end in a fault. */
  lemma UndocumentedDelegateAbortsRun(types: seq<TypeDefinition>, i: nat)
    requires i < |types| && Emitted(types[i]) && UndocumentedDelegate(types[i])
    ensures Run(PageFor, types).fault.Some?
  {
    if Run(PageFor, types).fault.None? {
      RunEmitsEachType(PageFor, types);
      var emitted := Where(types, Emitted);
      WhereMultiset(types, Emitted);
      assert types[i] in multiset(types);
      assert types[i] in multiset(emitted);
      var j :| 0 <= j < |emitted| && emitted[j] == types[i];
      PagesDiffer(types[i]);
      assert false;
    }
  }

  /** A module whose only type is an undocumented delegate: no page and no table of contents as written; one page corrected. */
  lemma UndocumentedDelegateRun(le: (string, string) -> bool, t: TypeDefinition)
    requires Emitted(t) && UndocumentedDelegate(t)
    ensures ToYamlResult(le, [t]) == Output([], None, Some(NullReference))
    ensures Run(PageForCorrected, [t]).fault.None? && |Run(PageForCorrected, [t]).pages| == 1
  {
    PagesDiffer(t);
    RunUnfold(PageFor, [t]);
    RunUnfold(PageForCorrected, [t]);
    assert [t][..0] == [];
  }

  /** The entries the run adds for the given emitted types, in order. */
  function TocEntries(ts: seq<TypeDefinition>): (r: seq<TocEntry>)
    ensures |r| == |ts|
    ensures forall i :: 0 <= i < |ts| ==> r[i] == TocEntryFor(ts[i])
  {
    seq(|ts|, i requires 0 <= i < |ts| => TocEntryFor(ts[i]))
  }

  /**
   * The table of contents of a run without faults lists every emitted type once: its links are,
   * up to order, those of the emitted types, and its namespaces ascend.
   */
  lemma TocListsEveryPage(le: (string, string) -> bool, types: seq<TypeDefinition>)
    requires Total(le)
    requires Run(PageFor, types).fault.None? && |Where(types, Emitted)| > 0
    ensures ToYamlResult(le, types).toc.Some?
    ensures multiset(AllLinks(ToYamlResult(le, types).toc.value)) == multiset(EntryLinks(TocEntries(Where(types, Emitted))))
    ensures SortedBy(le, NamespaceNames(GroupToc(le, Run(PageFor, types).toc)))
  {
    var entries := Run(PageFor, types).toc;
    RunEmitsEachType(PageFor, types);
    assert entries == TocEntries(Where(types, Emitted));
    BuildTocLinksEveryEntry(le, entries);
    NamespacesAscending(le, entries);
  }
}
