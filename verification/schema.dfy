/**
 * The reference page schema of reference.d.ts: inline text runs, the closed set of page
 * components, and the page itself, with the well-formedness rules the type comments state.
 */
module Schema {
  import opened Wrappers

  /** A unique global identifier. */
  type Id = string
  /** A language identifier following the vscode language identifier guideline. */
  type LanguageId = string
  /** A string displayed with no formatting. */
  type Plaintext = string
  /** A string displayed as (CommonMark) markdown. */
  type Markdown = string

  /** The characters an Id may use: `[a-zA-Z0-9-_.@/]`. */
  predicate IsIdChar(c: char) {
    || 'a' <= c <= 'z'
    || 'A' <= c <= 'Z'
    || '0' <= c <= '9'
    || c == '-' || c == '_' || c == '.' || c == '@' || c == '/'
  }

  /** An Id matches `[a-zA-Z0-9-_.@/]+` as a whole. */
  predicate ValidId(id: string) {
    |id| > 0 && forall i :: 0 <= i < |id| ==> IsIdChar(id[i])
  }

  /** A valid id contains no character outside the set; e.g. a generic arity mark '`' is refused. */
  lemma ValidIdRejects(id: string, i: nat)
    requires i < |id| && !IsIdChar(id[i])
    ensures !ValidId(id)
  {
  }

  /** A single text run mixing text and links: plaintext, a link, or a sequence of runs. */
  datatype Inline =
    | Text(text: Plaintext)
    | Link(link: string, href: string)
    | Run(parts: seq<Inline>)

  /** An ordered key/value mapping; insertion order is the display order. */
  type Facts = seq<(Plaintext, Inline)>

  /** A key/value mapping has each key once. */
  predicate DistinctKeys(facts: Facts) {
    forall i, j :: 0 <= i < j < |facts| ==> facts[i].0 != facts[j].0
  }

  /** Whether a page is deprecated, or the deprecation reason. */
  datatype Deprecation = DeprecatedFlag(flag: bool) | DeprecatedReason(reason: Markdown)

  /** One row of a jump list. */
  datatype JumpListItem = JumpListItem(name: Inline, description: Option<Markdown>, deprecated: bool)

  /** One row of a parameter list. */
  datatype ParameterItem = ParameterItem(
    name: Plaintext,
    description: Option<Markdown>,
    paramType: Option<Inline>,
    required: Option<bool>,
    default: Option<Plaintext>,
    deprecated: bool,
    fact: Option<Facts>)

  /** The closed set of page components. */
  datatype Component =
    | Section(section: Plaintext, body: seq<Component>)
    | TextBlock(markdown: Markdown)
    | Declaration(declaration: Plaintext, languageId: Option<LanguageId>)
    | Fact(fact: Facts)
    | JumpList(jumplist: seq<JumpListItem>)
    | ParameterList(parameters: seq<ParameterItem>)

  /** A reference page. */
  datatype ReferencePage = ReferencePage(
    id: Id,
    languageId: LanguageId,
    title: Plaintext,
    body: seq<Component>,
    summary: Option<Plaintext>,
    metadata: Option<Facts>,
    deprecated: Option<Deprecation>)

  /** The language a Declaration is highlighted in: its own, else the page's. */
  function HighlightLanguage(declaration: Component, page: ReferencePage): (r: LanguageId)
    requires declaration.Declaration?
    ensures declaration.languageId.Some? ==> r == declaration.languageId.value
    ensures declaration.languageId.None? ==> r == page.languageId
  {
    if declaration.languageId.Some? then declaration.languageId.value else page.languageId
  }

  /** `c` holds Sections at most `layers` deep (a non-section component holds none). */
  predicate SectionsWithin(c: Component, layers: nat)
    decreases c
  {
    match c
    case Section(_, body) =>
      layers > 0 && forall i :: 0 <= i < |body| ==> SectionsWithin(body[i], layers - 1)
    case _ => true
  }

  /** Sections nest at most two layers deep. */
  predicate WellFormed(c: Component) {
    SectionsWithin(c, 2)
  }

  /** Every key/value record within `c` (a Fact, or a parameter row's fact) has each key once. */
  predicate FactsKeyed(c: Component)
    decreases c
  {
    match c
    case Section(_, body) => forall i :: 0 <= i < |body| ==> FactsKeyed(body[i])
    case Fact(facts) => DistinctKeys(facts)
    case ParameterList(items) => forall i :: 0 <= i < |items| ==> items[i].fact.Some? ==> DistinctKeys(items[i].fact.value)
    case _ => true
  }

  /**
   * A page is well formed when its id is valid, every component of its body is, and every
   * key/value record on it, the page's own and those within the body, has each key once.
   */
  predicate WellFormedPage(p: ReferencePage) {
    && ValidId(p.id)
    && (forall i :: 0 <= i < |p.body| ==> WellFormed(p.body[i]) && FactsKeyed(p.body[i]))
    && (p.metadata.Some? ==> DistinctKeys(p.metadata.value))
  }

  /** A Section inside a Section inside a Section is ill formed, whatever the innermost holds. */
  lemma ThreeLayersIllFormed(h1: Plaintext, h2: Plaintext, h3: Plaintext, body: seq<Component>)
    ensures !WellFormed(Section(h1, [Section(h2, [Section(h3, body)])]))
  {
    var innermost := Section(h3, body);
    var inner := Section(h2, [innermost]);
    assert !SectionsWithin(innermost, 0);
    assert [innermost][0] == innermost;
    assert !SectionsWithin(inner, 1);
    assert [inner][0] == inner;
  }

  /** A Section whose body holds no Section is well formed, and so is one holding only such Sections. */
  lemma {:induction false} TwoLayersWellFormed(header: Plaintext, body: seq<Component>)
    requires forall i :: 0 <= i < |body| ==> SectionsWithin(body[i], 1)
    ensures WellFormed(Section(header, body))
  {
  }
}
