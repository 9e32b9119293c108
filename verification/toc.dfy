/**
 * The table of contents: the entries collected while pages are emitted, and the final
 * grouping `GroupBy(namespace).OrderBy(key)`, then within a namespace
 * `GroupBy(label).OrderBy(key)`, each label group rendered as its label followed by its
 * entries ordered by name.
 */
module Toc {
  import opened Sequences

  /** TypeLabel, in declaration order; `NoLabel` is the enumeration's `None`. */
  datatype TypeLabel = NoLabel | Classes | Interfaces | Structs | Enums | Delegates

  /** The underlying value of a TypeLabel, which `OrderBy` on the enum compares. */
  function Ordinal(l: TypeLabel): nat {
    match l
    case NoLabel => 0
    case Classes => 1
    case Interfaces => 2
    case Structs => 3
    case Enums => 4
    case Delegates => 5
  }

  /** `label.ToString()`. */
  function LabelName(l: TypeLabel): string {
    match l
    case NoLabel => "None"
    case Classes => "Classes"
    case Interfaces => "Interfaces"
    case Structs => "Structs"
    case Enums => "Enums"
    case Delegates => "Delegates"
  }

  /** The enum's order. */
  function LabelLe(a: TypeLabel, b: TypeLabel): bool {
    Ordinal(a) <= Ordinal(b)
  }

  /** One collected entry: `(namespace, label, name, href)`. */
  datatype TocEntry = TocEntry(namespace: string, typeLabel: TypeLabel, name: string, href: string)

  function NamespaceKey(e: TocEntry): string { e.namespace }
  function LabelKey(e: TocEntry): TypeLabel { e.typeLabel }

  /** Entries compared by name under the string comparison `le`. */
  function NameLe(le: (string, string) -> bool): (TocEntry, TocEntry) -> bool {
    (a: TocEntry, b: TocEntry) => le(a.name, b.name)
  }

  function Namespaces(toc: seq<TocEntry>): seq<string> {
    seq(|toc|, i requires 0 <= i < |toc| => toc[i].namespace)
  }

  function Labels(entries: seq<TocEntry>): seq<TypeLabel> {
    seq(|entries|, i requires 0 <= i < |entries| => entries[i].typeLabel)
  }

  // ---------------------------------------------------------------------------
  // Grouping
  // ---------------------------------------------------------------------------

  /** One label group of a namespace. */
  datatype LabelGroup = LabelGroup(typeLabel: TypeLabel, entries: seq<TocEntry>)

  /** One namespace of the table of contents. */
  datatype NamespaceGroup = NamespaceGroup(namespace: string, groups: seq<LabelGroup>)

  /** The groups for the given label keys, each group's entries ordered by name. */
  function LabelGroups(le: (string, string) -> bool, entries: seq<TocEntry>, labels: seq<TypeLabel>): (r: seq<LabelGroup>)
    ensures |r| == |labels|
    decreases |labels|
  {
    if labels == [] then []
    else [LabelGroup(labels[0], SortBy(NameLe(le), Where(entries, HasKey(LabelKey, labels[0]))))]
         + LabelGroups(le, entries, labels[1..])
  }

  /** `g.GroupBy(e => e.typeLabel).OrderBy(g => g.Key)`, groups ordered by name inside. */
  function GroupByLabel(le: (string, string) -> bool, entries: seq<TocEntry>): seq<LabelGroup> {
    LabelGroups(le, entries, SortBy(LabelLe, Distinct(Labels(entries))))
  }

  /** The namespace groups for the given namespace keys. */
  function NamespaceGroups(le: (string, string) -> bool, toc: seq<TocEntry>, keys: seq<string>): (r: seq<NamespaceGroup>)
    ensures |r| == |keys|
    decreases |keys|
  {
    if keys == [] then []
    else [NamespaceGroup(keys[0], GroupByLabel(le, Where(toc, HasKey(NamespaceKey, keys[0]))))]
         + NamespaceGroups(le, toc, keys[1..])
  }

  /** `toc.GroupBy(e => e.namespace).OrderBy(g => g.Key)` and the label grouping inside each. */
  function GroupToc(le: (string, string) -> bool, toc: seq<TocEntry>): seq<NamespaceGroup> {
    NamespaceGroups(le, toc, SortBy(le, Distinct(Namespaces(toc))))
  }

  // ---------------------------------------------------------------------------
  // Rendering
  // ---------------------------------------------------------------------------

  /** An item of a namespace: a label marker `{label}` or a link `{name, href}`. */
  datatype TocItem = LabelMarker(text: string) | TocLink(name: string, href: string)

  /** `{name = namespace, items}`. */
  datatype TocNamespace = TocNamespace(name: string, items: seq<TocItem>)

  function EntryLinks(entries: seq<TocEntry>): (r: seq<TocItem>)
    ensures |r| == |entries|
    ensures forall i :: 0 <= i < |entries| ==> r[i] == TocLink(entries[i].name, entries[i].href)
  {
    seq(|entries|, i requires 0 <= i < |entries| => TocLink(entries[i].name, entries[i].href))
  }

  /** `SelectMany`: each group's label marker followed by links to its entries. */
  function RenderGroups(groups: seq<LabelGroup>): seq<TocItem>
    decreases |groups|
  {
    if groups == [] then []
    else [LabelMarker(LabelName(groups[0].typeLabel))] + EntryLinks(groups[0].entries) + RenderGroups(groups[1..])
  }

  function RenderToc(namespaces: seq<NamespaceGroup>): (r: seq<TocNamespace>)
    ensures |r| == |namespaces|
    ensures forall i :: 0 <= i < |r| ==> r[i].name == namespaces[i].namespace
    decreases |namespaces|
  {
    if namespaces == [] then []
    else [TocNamespace(namespaces[0].namespace, RenderGroups(namespaces[0].groups))] + RenderToc(namespaces[1..])
  }

  /** The table of contents written for the collected entries. */
  function BuildToc(le: (string, string) -> bool, toc: seq<TocEntry>): seq<TocNamespace> {
    RenderToc(GroupToc(le, toc))
  }

  // ---------------------------------------------------------------------------
  // Properties
  // ---------------------------------------------------------------------------

  function NamespaceNames(groups: seq<NamespaceGroup>): (r: seq<string>)
    ensures |r| == |groups|
    ensures forall i :: 0 <= i < |groups| ==> r[i] == groups[i].namespace
  {
    seq(|groups|, i requires 0 <= i < |groups| => groups[i].namespace)
  }

  function GroupLabels(groups: seq<LabelGroup>): (r: seq<TypeLabel>)
    ensures |r| == |groups|
    ensures forall i :: 0 <= i < |groups| ==> r[i] == groups[i].typeLabel
  {
    seq(|groups|, i requires 0 <= i < |groups| => groups[i].typeLabel)
  }

  lemma {:induction false} NamespaceGroupsKeys(le: (string, string) -> bool, toc: seq<TocEntry>, keys: seq<string>)
    ensures NamespaceNames(NamespaceGroups(le, toc, keys)) == keys
    decreases |keys|
  {
    if keys != [] { NamespaceGroupsKeys(le, toc, keys[1..]); }
  }

  lemma {:induction false} LabelGroupsKeys(le: (string, string) -> bool, entries: seq<TocEntry>, labels: seq<TypeLabel>)
    ensures GroupLabels(LabelGroups(le, entries, labels)) == labels
    ensures forall i :: 0 <= i < |labels| ==>
      LabelGroups(le, entries, labels)[i].entries == SortBy(NameLe(le), Where(entries, HasKey(LabelKey, labels[i])))
    decreases |labels|
  {
    if labels != [] { LabelGroupsKeys(le, entries, labels[1..]); }
  }

  /**
   * The namespaces of the table of contents are those of the entries, each once, in
   * ascending order of the string comparison.
   */
  lemma NamespacesAscending(le: (string, string) -> bool, toc: seq<TocEntry>)
    requires Total(le)
    ensures var names := NamespaceNames(GroupToc(le, toc));
      && SortedBy(le, names)
      && NoDuplicates(names)
      && (forall i :: 0 <= i < |toc| ==> toc[i].namespace in names)
      && (forall i :: 0 <= i < |names| ==> exists j :: 0 <= j < |toc| && toc[j].namespace == names[i])
  {
    var keys := SortBy(le, Distinct(Namespaces(toc)));
    NamespaceGroupsKeys(le, toc, keys);
    SortBySorted(le, Distinct(Namespaces(toc)));
    SortByNoDuplicates(le, Distinct(Namespaces(toc)));
    SortByMembers(le, Distinct(Namespaces(toc)));
    forall i | 0 <= i < |toc| ensures toc[i].namespace in keys {
      assert Namespaces(toc)[i] == toc[i].namespace;
    }
    forall i | 0 <= i < |keys| ensures exists j :: 0 <= j < |toc| && toc[j].namespace == keys[i] {
      var j :| 0 <= j < |Namespaces(toc)| && Namespaces(toc)[j] == keys[i];
      assert toc[j].namespace == keys[i];
    }
  }

  lemma LabelLeTotal()
    ensures Total(LabelLe)
  {
  }

  /** The labels of a namespace's groups, each once, in TypeLabel's declaration order. */
  lemma LabelGroupsAscending(le: (string, string) -> bool, entries: seq<TocEntry>)
    ensures var groups := GroupByLabel(le, entries);
      forall i :: 0 < i < |groups| ==> Ordinal(groups[i - 1].typeLabel) < Ordinal(groups[i].typeLabel)
  {
    var labels := SortBy(LabelLe, Distinct(Labels(entries)));
    var groups := GroupByLabel(le, entries);
    LabelGroupsKeys(le, entries, labels);
    LabelLeTotal();
    SortBySorted(LabelLe, Distinct(Labels(entries)));
    SortByNoDuplicates(LabelLe, Distinct(Labels(entries)));
    forall i | 0 < i < |groups| ensures Ordinal(groups[i - 1].typeLabel) < Ordinal(groups[i].typeLabel) {
      assert GroupLabels(groups)[i - 1] == labels[i - 1] && GroupLabels(groups)[i] == labels[i];
      assert LabelLe(labels[i - 1], labels[i]);
      assert labels[i - 1] != labels[i];
    }
  }

  /** Every label present among a namespace's entries has a group. */
  lemma LabelGroupsCover(le: (string, string) -> bool, entries: seq<TocEntry>)
    ensures forall i :: 0 <= i < |entries| ==> entries[i].typeLabel in GroupLabels(GroupByLabel(le, entries))
  {
    var labels := SortBy(LabelLe, Distinct(Labels(entries)));
    LabelGroupsKeys(le, entries, labels);
    SortByMembers(LabelLe, Distinct(Labels(entries)));
    forall i | 0 <= i < |entries| ensures entries[i].typeLabel in labels {
      assert Labels(entries)[i] == entries[i].typeLabel;
    }
  }

  lemma NameLeTotal(le: (string, string) -> bool)
    requires Total(le)
    ensures Total(NameLe(le))
  {
    forall a: TocEntry, b: TocEntry ensures NameLe(le)(a, b) || NameLe(le)(b, a) {
      assert le(a.name, b.name) || le(b.name, a.name);
    }
  }

  /** The entries of the group for label `l` all carry `l` and are ordered by name. */
  lemma LabelGroupSorted(le: (string, string) -> bool, entries: seq<TocEntry>, l: TypeLabel)
    requires Total(le)
    ensures var group := SortBy(NameLe(le), Where(entries, HasKey(LabelKey, l)));
      && SortedBy(NameLe(le), group)
      && forall j :: 0 <= j < |group| ==> group[j].typeLabel == l
  {
    var selected := Where(entries, HasKey(LabelKey, l));
    NameLeTotal(le);
    SortBySorted(NameLe(le), selected);
    SortByMembers(NameLe(le), selected);
    var group := SortBy(NameLe(le), selected);
    forall j | 0 <= j < |group| ensures group[j].typeLabel == l {
      var k :| 0 <= k < |selected| && selected[k] == group[j];
      assert HasKey(LabelKey, l)(selected[k]);
    }
  }

  /** The entries named `n`. */
  function NamedAs(n: string): TocEntry -> bool {
    (e: TocEntry) => e.name == n
  }

  /** Entries of a label group that share a name keep the order in which they were collected. */
  lemma SameNameKeepsCollectionOrder(le: (string, string) -> bool, entries: seq<TocEntry>, l: TypeLabel, n: string)
    requires Total(le)
    ensures var selected := Where(entries, HasKey(LabelKey, l));
      Where(SortBy(NameLe(le), selected), NamedAs(n)) == Where(selected, NamedAs(n))
  {
    assert le(n, n);
    SortByStable(NameLe(le), Where(entries, HasKey(LabelKey, l)), NamedAs(n));
  }

  /**
   * Within a namespace the label groups follow TypeLabel's declaration order (strictly: each
   * label once), each label present among the entries has a group, and each group's entries
   * carry its label and are ordered by name.
   */
  lemma LabelGroupsOrdered(le: (string, string) -> bool, entries: seq<TocEntry>)
    requires Total(le)
    ensures var groups := GroupByLabel(le, entries);
      && (forall i :: 0 < i < |groups| ==> Ordinal(groups[i - 1].typeLabel) < Ordinal(groups[i].typeLabel))
      && (forall i :: 0 <= i < |entries| ==> entries[i].typeLabel in GroupLabels(groups))
      && (forall i :: 0 <= i < |groups| ==>
            && SortedBy(NameLe(le), groups[i].entries)
            && forall j :: 0 <= j < |groups[i].entries| ==> groups[i].entries[j].typeLabel == groups[i].typeLabel)
  {
    var labels := SortBy(LabelLe, Distinct(Labels(entries)));
    var groups := GroupByLabel(le, entries);
    LabelGroupsAscending(le, entries);
    LabelGroupsCover(le, entries);
    LabelGroupsKeys(le, entries, labels);
    forall i | 0 <= i < |groups|
      ensures SortedBy(NameLe(le), groups[i].entries)
      ensures forall j :: 0 <= j < |groups[i].entries| ==> groups[i].entries[j].typeLabel == groups[i].typeLabel
    {
      assert GroupLabels(groups)[i] == labels[i];
      LabelGroupSorted(le, entries, labels[i]);
    }
  }

  /** All entries of a list of label groups, group after group. */
  function FlattenGroups(groups: seq<LabelGroup>): seq<TocEntry>
    decreases |groups|
  {
    if groups == [] then [] else groups[0].entries + FlattenGroups(groups[1..])
  }

  /** All entries of the table of contents, namespace after namespace. */
  function FlattenToc(namespaces: seq<NamespaceGroup>): seq<TocEntry>
    decreases |namespaces|
  {
    if namespaces == [] then [] else FlattenGroups(namespaces[0].groups) + FlattenToc(namespaces[1..])
  }

  lemma {:induction false} LabelGroupsHold(le: (string, string) -> bool, entries: seq<TocEntry>, labels: seq<TypeLabel>)
    ensures multiset(FlattenGroups(LabelGroups(le, entries, labels))) == Grouped(entries, LabelKey, labels)
    decreases |labels|
  {
    if labels != [] {
      LabelGroupsHold(le, entries, labels[1..]);
      SortByMultiset(NameLe(le), Where(entries, HasKey(LabelKey, labels[0])));
    }
  }

  /** The label groups of a namespace together hold exactly its entries. */
  lemma GroupByLabelPartitions(le: (string, string) -> bool, entries: seq<TocEntry>)
    ensures multiset(FlattenGroups(GroupByLabel(le, entries))) == multiset(entries)
  {
    var labels := SortBy(LabelLe, Distinct(Labels(entries)));
    LabelGroupsHold(le, entries, labels);
    SortByNoDuplicates(LabelLe, Distinct(Labels(entries)));
    SortByMembers(LabelLe, Distinct(Labels(entries)));
    forall i | 0 <= i < |entries| ensures LabelKey(entries[i]) in labels {
      assert Labels(entries)[i] == entries[i].typeLabel;
    }
    GroupsPartition(entries, LabelKey, labels);
  }

  lemma {:induction false} NamespaceGroupsHold(le: (string, string) -> bool, toc: seq<TocEntry>, keys: seq<string>)
    ensures multiset(FlattenToc(NamespaceGroups(le, toc, keys))) == Grouped(toc, NamespaceKey, keys)
    decreases |keys|
  {
    if keys != [] {
      NamespaceGroupsHold(le, toc, keys[1..]);
      GroupByLabelPartitions(le, Where(toc, HasKey(NamespaceKey, keys[0])));
    }
  }

  /** Grouping loses no entry and duplicates none: the groups hold a permutation of the entries. */
  lemma GroupTocPartitions(le: (string, string) -> bool, toc: seq<TocEntry>)
    ensures multiset(FlattenToc(GroupToc(le, toc))) == multiset(toc)
  {
    var keys := SortBy(le, Distinct(Namespaces(toc)));
    NamespaceGroupsHold(le, toc, keys);
    SortByNoDuplicates(le, Distinct(Namespaces(toc)));
    SortByMembers(le, Distinct(Namespaces(toc)));
    forall i | 0 <= i < |toc| ensures NamespaceKey(toc[i]) in keys {
      assert Namespaces(toc)[i] == toc[i].namespace;
    }
    GroupsPartition(toc, NamespaceKey, keys);
  }

  /** The links among the items, in order. */
  function LinksOf(items: seq<TocItem>): seq<TocItem>
    decreases |items|
  {
    if items == [] then [] else (if items[0].TocLink? then [items[0]] else []) + LinksOf(items[1..])
  }

  lemma {:induction false} LinksOfAppend(a: seq<TocItem>, b: seq<TocItem>)
    ensures LinksOf(a + b) == LinksOf(a) + LinksOf(b)
    decreases |a|
  {
    if a == [] {
      assert a + b == b;
    } else {
      assert (a + b)[0] == a[0] && (a + b)[1..] == a[1..] + b;
      LinksOfAppend(a[1..], b);
    }
  }

  lemma {:induction false} LinksOfEntryLinks(entries: seq<TocEntry>)
    ensures LinksOf(EntryLinks(entries)) == EntryLinks(entries)
    decreases |entries|
  {
    if entries != [] {
      assert EntryLinks(entries) == [EntryLinks(entries)[0]] + EntryLinks(entries[1..]);
      LinksOfAppend([EntryLinks(entries)[0]], EntryLinks(entries[1..]));
      LinksOfEntryLinks(entries[1..]);
    }
  }

  lemma EntryLinksAppend(a: seq<TocEntry>, b: seq<TocEntry>)
    ensures EntryLinks(a + b) == EntryLinks(a) + EntryLinks(b)
  {
  }

  /** The rendered items of a namespace hold one link per entry, in group order, and nothing else but labels. */
  lemma {:induction false} RenderGroupsLinks(groups: seq<LabelGroup>)
    ensures LinksOf(RenderGroups(groups)) == EntryLinks(FlattenGroups(groups))
    decreases |groups|
  {
    if groups != [] {
      var head := [LabelMarker(LabelName(groups[0].typeLabel))];
      LinksOfAppend(head + EntryLinks(groups[0].entries), RenderGroups(groups[1..]));
      LinksOfAppend(head, EntryLinks(groups[0].entries));
      LinksOfEntryLinks(groups[0].entries);
      RenderGroupsLinks(groups[1..]);
      EntryLinksAppend(groups[0].entries, FlattenGroups(groups[1..]));
    }
  }

  /** All links of a rendered table of contents, namespace after namespace. */
  function AllLinks(toc: seq<TocNamespace>): seq<TocItem>
    decreases |toc|
  {
    if toc == [] then [] else LinksOf(toc[0].items) + AllLinks(toc[1..])
  }

  lemma {:induction false} RenderTocLinks(namespaces: seq<NamespaceGroup>)
    ensures AllLinks(RenderToc(namespaces)) == EntryLinks(FlattenToc(namespaces))
    decreases |namespaces|
  {
    if namespaces != [] {
      RenderGroupsLinks(namespaces[0].groups);
      RenderTocLinks(namespaces[1..]);
      EntryLinksAppend(FlattenGroups(namespaces[0].groups), FlattenToc(namespaces[1..]));
    }
  }

  /** Links of permuted entries are the permuted links. */
  lemma {:induction false} EntryLinksPermutation(a: seq<TocEntry>, b: seq<TocEntry>)
    requires multiset(a) == multiset(b)
    ensures multiset(EntryLinks(a)) == multiset(EntryLinks(b))
    decreases |a|
  {
    if a == [] {
      assert |b| == |multiset(b)|;
    } else {
      var x := a[0];
      assert x in multiset(b);
      var j :| 0 <= j < |b| && b[j] == x;
      var rest := b[..j] + b[j + 1..];
      assert b == b[..j] + [x] + b[j + 1..];
      assert a == [x] + a[1..];
      assert multiset(b) == multiset(b[..j]) + multiset{x} + multiset(b[j + 1..]);
      assert multiset(a) == multiset{x} + multiset(a[1..]);
      assert multiset(rest) == multiset(b[..j]) + multiset(b[j + 1..]);
      assert multiset(a[1..]) == multiset(a) - multiset{x};
      assert multiset(rest) == multiset(b) - multiset{x};
      EntryLinksPermutation(a[1..], rest);
      EntryLinksAppend(b[..j] + [x], b[j + 1..]);
      EntryLinksAppend(b[..j], [x]);
      EntryLinksAppend(b[..j], b[j + 1..]);
      EntryLinksAppend([x], a[1..]);
    }
  }

  /**
   * The table of contents links every collected entry exactly once: its links are those of
   * a permutation of the entries, so up to order they are the entries' own links.
   */
  lemma BuildTocLinksEveryEntry(le: (string, string) -> bool, toc: seq<TocEntry>)
    ensures var order := FlattenToc(GroupToc(le, toc));
      && multiset(order) == multiset(toc)
      && AllLinks(BuildToc(le, toc)) == EntryLinks(order)
      && multiset(AllLinks(BuildToc(le, toc))) == multiset(EntryLinks(toc))
      && |AllLinks(BuildToc(le, toc))| == |toc|
  {
    var order := FlattenToc(GroupToc(le, toc));
    GroupTocPartitions(le, toc);
    RenderTocLinks(GroupToc(le, toc));
    EntryLinksPermutation(order, toc);
    assert |order| == |multiset(order)|;
  }

  lemma WhereTwo(entries: seq<TocEntry>, p: TocEntry -> bool)
    requires |entries| == 2
    ensures Where(entries, p) == (if p(entries[0]) then [entries[0]] else []) + (if p(entries[1]) then [entries[1]] else [])
  {
    assert entries[1..][1..] == [];
  }

  lemma DistinctEnumStruct()
    ensures Distinct([Enums, Structs]) == [Enums, Structs]
  {
    assert [Enums, Structs][..1] == [Enums];
    assert Distinct([Enums]) == [Enums] by { assert [Enums][..0] == []; }
  }

  lemma SortEnumStruct()
    ensures SortBy(LabelLe, [Enums, Structs]) == [Structs, Enums]
  {
    assert [Enums, Structs][1..] == [Structs];
    assert SortBy(LabelLe, [Structs]) == [Structs] by { assert [Structs][1..] == []; }
  }

  lemma LabelsOfEnumStruct(e: TocEntry, s: TocEntry)
    requires s.typeLabel == Structs && e.typeLabel == Enums
    ensures SortBy(LabelLe, Distinct(Labels([e, s]))) == [Structs, Enums]
  {
    assert Labels([e, s]) == [Enums, Structs];
    DistinctEnumStruct();
    SortEnumStruct();
  }

  /** Structs are listed before Enums: the order is the enum's, not the alphabet's. */
  lemma StructsBeforeEnums(le: (string, string) -> bool, s: TocEntry, e: TocEntry)
    requires s.namespace == e.namespace && s.typeLabel == Structs && e.typeLabel == Enums
    ensures GroupByLabel(le, [e, s]) == [LabelGroup(Structs, [s]), LabelGroup(Enums, [e])]
  {
    var entries := [e, s];
    LabelsOfEnumStruct(e, s);
    WhereTwo(entries, HasKey(LabelKey, Structs));
    WhereTwo(entries, HasKey(LabelKey, Enums));
    assert SortBy(NameLe(le), [s]) == [s] by { assert [s][1..] == []; }
    assert SortBy(NameLe(le), [e]) == [e] by { assert [e][1..] == []; }
    assert [Structs, Enums][1..] == [Enums] && [Enums][1..] == [];
  }
}
