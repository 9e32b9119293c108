/**
 * The reference-fragment merge engine of ReferenceItem.cs: one partial description of a
 * symbol (a ReferenceItem) is folded into another, in place.
 *
 * LinkItems, their lists and the per-language SortedLists are modelled as values; the
 * ReferenceItem itself is a class whose fields Merge reassigns.
 */
module ReferenceItems {
  import opened Wrappers

  /** A `SyntaxLanguage`, identified by its ordinal (the SortedList key order). */
  type SyntaxLanguage = nat

  /** One token of a name projection. */
  datatype LinkItem = LinkItem(
    name: Option<string>,         // id of the referenced symbol; None for punctuation
    displayName: Option<string>,
    isExternalPath: bool,         // true when the symbol has no local declaration
    href: Option<string>)         // resolved later; usually None here

  /** A `SortedList<SyntaxLanguage, List<LinkItem>>`: one projection per language. */
  type Parts = map<SyntaxLanguage, seq<LinkItem>>

  /** The exception Merge throws. */
  datatype Exception = ArgumentNullException(paramName: string)

  // ---------------------------------------------------------------------------
  // Scalar fields: the two generic Merge<T> overloads, `source ?? target`
  // ---------------------------------------------------------------------------

  /** `source ?? target`: the first argument wins whenever it is present. */
  function Coalesce<T>(source: Option<T>, target: Option<T>): (r: Option<T>)
    ensures r.Some? <==> source.Some? || target.Some?
    ensures source.Some? ==> r == source
    ensures source.None? ==> r == target
  {
    source.OrElse(target)
  }

  /** What Merge<T> only Debug.Asserts: the two sides do not conflict. */
  predicate Agree<T(==)>(source: Option<T>, target: Option<T>) {
    source.None? || target.None? || source == target
  }

  /** When the asserted agreement holds, the argument order does not matter. */
  lemma CoalesceCommutesWhenAgreeing<T>(a: Option<T>, b: Option<T>)
    requires Agree(a, b)
    ensures Coalesce(a, b) == Coalesce(b, a)
  {
  }

  /** Coalescing is associative, so fragments can be folded in in any grouping. */
  lemma CoalesceAssociative<T>(a: Option<T>, b: Option<T>, c: Option<T>)
    ensures Coalesce(a, Coalesce(b, c)) == Coalesce(Coalesce(a, b), c)
  {
  }

  // ---------------------------------------------------------------------------
  // MergeCommentId
  // ---------------------------------------------------------------------------

  /** The prefix that marks a comment id the extractor could not resolve. */
  const ErrorPrefix: string := "!:"

  /** `id?.StartsWith("!:", Ordinal) == false`: present and not an error sentinel. */
  predicate IsResolved(id: Option<string>) {
    id.Some? && !(ErrorPrefix <= id.value)
  }

  /**
   * Merges two comment ids, `source` being the incoming one: a resolved id beats an
   * unresolved one, the incoming id wins between two resolved ones, and two unresolved
   * ids give null.
   */
  function MergeCommentId(source: Option<string>, target: Option<string>): (r: Option<string>)
    ensures IsResolved(source) && IsResolved(target) ==> r == source
    ensures IsResolved(source) && !IsResolved(target) ==> r == source
    ensures !IsResolved(source) && IsResolved(target) ==> r == target
    ensures !IsResolved(source) && !IsResolved(target) ==> r == None
    ensures r == None || IsResolved(r)
  {
    var sourceIsNotError := IsResolved(source);
    var targetIsNotError := IsResolved(target);
    if sourceIsNotError && targetIsNotError then Coalesce(source, target)
    else if sourceIsNotError then source
    else if targetIsNotError then target
    else None
  }

  /** The documented examples: an error sentinel loses to a resolved id; two sentinels give null. */
  lemma MergeCommentIdExamples()
    ensures MergeCommentId(Some("!:x"), Some("C1")) == Some("C1")
    ensures MergeCommentId(Some("C1"), Some("!:x")) == Some("C1")
    ensures MergeCommentId(Some("!:x"), Some("!:y")) == None
    ensures MergeCommentId(Some("C2"), Some("C1")) == Some("C2")
    ensures MergeCommentId(None, Some("!:y")) == None
  {
    assert !IsResolved(Some("!:x")) && !IsResolved(Some("!:y"));
    assert IsResolved(Some("C1")) by { assert "C1"[0] != ErrorPrefix[0]; }
    assert IsResolved(Some("C2")) by { assert "C2"[0] != ErrorPrefix[0]; }
  }

  /** Unless both ids are resolved and differ, merging comment ids is order-independent. */
  lemma MergeCommentIdCommutes(a: Option<string>, b: Option<string>)
    requires !(IsResolved(a) && IsResolved(b) && a != b)
    ensures MergeCommentId(a, b) == MergeCommentId(b, a)
  {
  }

  // ---------------------------------------------------------------------------
  // Projection lists: the body of the local MergeParts for one language key
  // ---------------------------------------------------------------------------

  /** One step of the per-index loop: AND of the external flags, first non-null href. */
  function CombineLink(target: LinkItem, source: LinkItem): (r: LinkItem)
    ensures r.name == target.name && r.displayName == target.displayName
    ensures r.isExternalPath <==> target.isExternalPath && source.isExternalPath
    ensures target.href.Some? ==> r.href == target.href
    ensures target.href.None? ==> r.href == source.href
  {
    target.(isExternalPath := target.isExternalPath && source.isExternalPath,
            href := target.href.OrElse(source.href))
  }

  /**
   * The value the existing list `target` holds after the incoming list `source` for the same
   * language has been merged into it.
   */
  function MergedList(target: seq<LinkItem>, source: seq<LinkItem>): (r: seq<LinkItem>)
    ensures |source| == 0 ==> r == target
    ensures |source| > 0 && |target| == 0 ==> r == source
    ensures |source| > 0 && |target| > 0 && |source| != |target| ==> r == target
    ensures |source| == |target| ==> |r| == |target|
    ensures |source| == |target| ==> forall i :: 0 <= i < |r| ==>
      && r[i].name == target[i].name
      && r[i].displayName == target[i].displayName
      && r[i].isExternalPath == (target[i].isExternalPath && source[i].isExternalPath)
      && r[i].href == (if target[i].href.Some? then target[i].href else source[i].href)
  {
    if |source| == 0 then target
    else if |target| == 0 then target + source
    else if |source| == |target| then
      seq(|target|, i requires 0 <= i < |target| => CombineLink(target[i], source[i]))
    else target
  }

  /**
   * The local MergeParts, for a key present on both sides: an empty incoming list is
   * skipped, an empty existing list receives every incoming item, lists of equal length
   * are combined index by index, and lists of unequal length are left as they are
   * (the length check is only a Debug.Assert).
   */
  method MergeLists(target: seq<LinkItem>, source: seq<LinkItem>) returns (r: seq<LinkItem>)
    ensures r == MergedList(target, source)
  {
    r := target;
    if |source| == 0 {
      return;
    }
    if |target| == 0 {
      r := r + source;
      return;
    }
    if |source| == |r| {
      var i := 0;
      while i < |source|
        invariant 0 <= i <= |source| == |r|
        invariant forall j :: 0 <= j < i ==> r[j] == CombineLink(target[j], source[j])
        invariant forall j :: i <= j < |r| ==> r[j] == target[j]
      {
        r := r[i := r[i].(isExternalPath := r[i].isExternalPath && source[i].isExternalPath)];
        r := r[i := r[i].(href := r[i].href.OrElse(source[i].href))];
        i := i + 1;
      }
    }
  }

  /** Merging a list with itself changes nothing. */
  lemma MergedListIdempotent(l: seq<LinkItem>)
    ensures MergedList(l, l) == l
  {
    if |l| > 0 {
      forall i | 0 <= i < |l| ensures MergedList(l, l)[i] == l[i] {
        assert CombineLink(l[i], l[i]) == l[i];
      }
    }
  }

  /**
   * Two lists describe congruent projections: same length, same token at each index, and
   * hrefs that do not conflict.
   */
  predicate Congruent(a: seq<LinkItem>, b: seq<LinkItem>) {
    && |a| == |b|
    && forall i :: 0 <= i < |a| ==>
      && a[i].name == b[i].name
      && a[i].displayName == b[i].displayName
      && Agree(a[i].href, b[i].href)
  }

  /** Congruent, or one side has no information yet (an empty list). */
  predicate Compatible(a: seq<LinkItem>, b: seq<LinkItem>) {
    |a| == 0 || |b| == 0 || Congruent(a, b)
  }

  /** The AND / first-non-null rules make merging compatible lists order-independent. */
  lemma MergedListCommutes(a: seq<LinkItem>, b: seq<LinkItem>)
    requires Compatible(a, b)
    ensures MergedList(a, b) == MergedList(b, a)
  {
    if |a| > 0 && |b| > 0 {
      forall i | 0 <= i < |a| ensures MergedList(a, b)[i] == MergedList(b, a)[i] {
        assert CombineLink(a[i], b[i]) == CombineLink(b[i], a[i]);
      }
    }
  }

  /** ... and independent of grouping, so fragments may arrive in any order. */
  lemma MergedListAssociative(a: seq<LinkItem>, b: seq<LinkItem>, c: seq<LinkItem>)
    requires Compatible(a, b) && Compatible(b, c) && Compatible(a, c)
    ensures MergedList(MergedList(a, b), c) == MergedList(a, MergedList(b, c))
  {
    if |a| > 0 && |b| > 0 && |c| > 0 {
      var l, r := MergedList(MergedList(a, b), c), MergedList(a, MergedList(b, c));
      forall i | 0 <= i < |a| ensures l[i] == r[i] {
        assert l[i] == CombineLink(CombineLink(a[i], b[i]), c[i]);
        assert r[i] == CombineLink(a[i], CombineLink(b[i], c[i]));
      }
    }
  }

  // ---------------------------------------------------------------------------
  // Per-language maps: the local MergeParts
  // ---------------------------------------------------------------------------

  /** The map the existing SortedList `self` becomes after `other` is merged into it. */
  function MergedParts(self: Parts, other: Parts): (r: Parts)
    ensures r.Keys == self.Keys + other.Keys
    ensures forall k :: k in self && k !in other ==> r[k] == self[k]
    ensures forall k :: k !in self && k in other ==> r[k] == other[k]
    ensures forall k :: k in self && k in other ==> r[k] == MergedList(self[k], other[k])
  {
    map k | k in self.Keys + other.Keys ::
      if k in self && k in other then MergedList(self[k], other[k])
      else if k in self then self[k]
      else other[k]
  }

  /** MergeParts on possibly-null maps: when either is null the result is `self ?? other`. */
  function MergedOptionalParts(self: Option<Parts>, other: Option<Parts>): (r: Option<Parts>)
    ensures self.None? || other.None? ==> r == Coalesce(self, other)
    ensures self.Some? && other.Some? ==> r == Some(MergedParts(self.value, other.value))
  {
    if self.Some? && other.Some? then Some(MergedParts(self.value, other.value))
    else self.OrElse(other)
  }

  /** The state of the SortedList once the keys in `done` have been processed. */
  ghost function PartiallyMerged(self: Parts, other: Parts, done: set<SyntaxLanguage>): Parts
    requires done <= other.Keys
  {
    map k | k in self.Keys + done ::
      if k in done then (if k in self then MergedList(self[k], other[k]) else other[k])
      else self[k]
  }

  /**
   * The local MergeParts: walks the incoming map; a key already present is merged list by
   * list, a new key is added with the incoming list.  Each step touches only its own key,
   * so the SortedList's iteration order does not affect the result.
   */
  method MergeParts(self: Option<Parts>, other: Option<Parts>) returns (r: Option<Parts>)
    ensures r == MergedOptionalParts(self, other)
  {
    if other.Some? && self.Some? {
      var target := self.value;
      var pending := other.value.Keys;
      assert target == PartiallyMerged(self.value, other.value, {});
      while pending != {}
        invariant pending <= other.value.Keys
        invariant target == PartiallyMerged(self.value, other.value, other.value.Keys - pending)
        decreases pending
      {
        var key :| key in pending;
        ghost var done := other.value.Keys - pending;
        var sourceParts := other.value[key];
        if key in target {
          var targetParts := MergeLists(target[key], sourceParts);
          target := target[key := targetParts];
        } else {
          target := target[key := sourceParts];
        }
        pending := pending - {key};
        assert other.value.Keys - pending == done + {key};
      }
      assert target == MergedParts(self.value, other.value);
      r := Some(target);
    } else {
      r := self.OrElse(other);
    }
  }

  /** Merging a map with itself changes nothing. */
  lemma MergedPartsIdempotent(p: Parts)
    ensures MergedParts(p, p) == p
  {
    forall k | k in p ensures MergedParts(p, p)[k] == p[k] {
      MergedListIdempotent(p[k]);
    }
  }

  /** For maps whose shared languages hold compatible lists, the merge is order-independent. */
  lemma MergedPartsCommute(p: Parts, q: Parts)
    requires forall k :: k in p && k in q ==> Compatible(p[k], q[k])
    ensures MergedParts(p, q) == MergedParts(q, p)
  {
    forall k | k in p && k in q ensures MergedParts(p, q)[k] == MergedParts(q, p)[k] {
      MergedListCommutes(p[k], q[k]);
    }
  }

  /** The languages of a possibly-null map. */
  function Languages(parts: Option<Parts>): set<SyntaxLanguage> {
    if parts.Some? then parts.value.Keys else {}
  }

  /** After a merge a slot holds exactly the languages of both sides. */
  lemma MergedLanguages(self: Option<Parts>, other: Option<Parts>)
    ensures Languages(MergedOptionalParts(self, other)) == Languages(self) + Languages(other)
  {
  }

  /** If one side's list for a language is empty, the merge yields the other side's list exactly. */
  lemma EmptySideYieldsOther(self: Parts, other: Parts, k: SyntaxLanguage)
    requires k in self && k in other
    requires |self[k]| == 0 || |other[k]| == 0
    ensures MergedParts(self, other)[k] == (if |self[k]| == 0 then other[k] else self[k])
  {
  }

  // ---------------------------------------------------------------------------
  // Clone
  // ---------------------------------------------------------------------------

  /** `(from x in list select x.Clone()).ToList()`: a copy holding equal LinkItems. */
  method CloneList(items: seq<LinkItem>) returns (r: seq<LinkItem>)
    ensures r == items
  {
    r := [];
    var i := 0;
    while i < |items|
      invariant 0 <= i <= |items|
      invariant r == items[..i]
    {
      r := r + [items[i]];
      i := i + 1;
    }
  }

  /** The local CloneParts: null stays null, otherwise every list of the map is copied. */
  method CloneParts(parts: Option<Parts>) returns (r: Option<Parts>)
    ensures r == parts
  {
    if parts.None? {
      return None;
    }
    var dict: Parts := map[];
    var pending := parts.value.Keys;
    while pending != {}
      invariant pending <= parts.value.Keys
      invariant dict.Keys == parts.value.Keys - pending
      invariant forall k :: k in dict ==> dict[k] == parts.value[k]
      decreases pending
    {
      var key :| key in pending;
      var copy := CloneList(parts.value[key]);
      dict := dict[key := copy];
      pending := pending - {key};
    }
    assert dict == parts.value;
    r := Some(dict);
  }

  // ---------------------------------------------------------------------------
  // The whole item
  // ---------------------------------------------------------------------------

  /** The value of every field of a ReferenceItem. */
  datatype ItemState = ItemState(
    nameParts: Option<Parts>,
    nameWithTypeParts: Option<Parts>,
    qualifiedNameParts: Option<Parts>,
    isDefinition: Option<bool>,
    definition: Option<string>,
    parent: Option<string>,
    commentId: Option<string>)

  /**
   * The state `self` is left in by `self.Merge(other)`: the incoming scalars win, the comment
   * id is merged only if the item is a definition after that, and the three projection
   * slots are merged language by language.
   */
  function MergedState(self: ItemState, other: ItemState): (r: ItemState)
    ensures r.isDefinition == (if other.isDefinition.Some? then other.isDefinition else self.isDefinition)
    ensures r.definition == (if other.definition.Some? then other.definition else self.definition)
    ensures r.parent == (if other.parent.Some? then other.parent else self.parent)
    ensures r.isDefinition != Some(true) ==> r.commentId == self.commentId
    ensures r.isDefinition == Some(true) ==> r.commentId == MergeCommentId(other.commentId, self.commentId)
    ensures r.nameParts == MergedOptionalParts(self.nameParts, other.nameParts)
    ensures r.nameWithTypeParts == MergedOptionalParts(self.nameWithTypeParts, other.nameWithTypeParts)
    ensures r.qualifiedNameParts == MergedOptionalParts(self.qualifiedNameParts, other.qualifiedNameParts)
  {
    var isDefinition := Coalesce(other.isDefinition, self.isDefinition);
    ItemState(
      MergedOptionalParts(self.nameParts, other.nameParts),
      MergedOptionalParts(self.nameWithTypeParts, other.nameWithTypeParts),
      MergedOptionalParts(self.qualifiedNameParts, other.qualifiedNameParts),
      isDefinition,
      Coalesce(other.definition, self.definition),
      Coalesce(other.parent, self.parent),
      if isDefinition == Some(true) then MergeCommentId(other.commentId, self.commentId) else self.commentId)
  }

  /**
   * Merging an item with a copy of itself leaves every field as it was, except that an
   * unresolved comment id of a definition item is cleared.
   */
  lemma MergeWithCopy(s: ItemState)
    ensures MergedState(s, s) == s.(commentId :=
      if s.isDefinition == Some(true) && !IsResolved(s.commentId) then None else s.commentId)
  {
    if s.nameParts.Some? { MergedPartsIdempotent(s.nameParts.value); }
    if s.nameWithTypeParts.Some? { MergedPartsIdempotent(s.nameWithTypeParts.value); }
    if s.qualifiedNameParts.Some? { MergedPartsIdempotent(s.qualifiedNameParts.value); }
  }

  /** An item with an error-sentinel comment id is not a fixed point of merging with its copy. */
  lemma MergeWithCopyClearsSentinel()
    ensures var s := ItemState(None, None, None, Some(true), None, None, Some("!:T:X"));
            MergedState(s, s).commentId == None && MergedState(s, s) != s
  {
  }

  /** Two fragments that nowhere conflict. */
  predicate Consistent(a: ItemState, b: ItemState) {
    && Agree(a.isDefinition, b.isDefinition)
    && Agree(a.definition, b.definition)
    && Agree(a.parent, b.parent)
    && !(IsResolved(a.commentId) && IsResolved(b.commentId) && a.commentId != b.commentId)
    && SlotsCompatible(a.nameParts, b.nameParts)
    && SlotsCompatible(a.nameWithTypeParts, b.nameWithTypeParts)
    && SlotsCompatible(a.qualifiedNameParts, b.qualifiedNameParts)
  }

  predicate SlotsCompatible(a: Option<Parts>, b: Option<Parts>) {
    a.Some? && b.Some? ==> forall k :: k in a.value && k in b.value ==> Compatible(a.value[k], b.value[k])
  }

  /**
   * For consistent fragments the order in which they are merged does not matter, provided
   * the result is a definition (so both comment ids are merged) or the comment ids are equal
   * (otherwise each order keeps its own base's comment id).
   */
  lemma MergedStateCommutes(a: ItemState, b: ItemState)
    requires Consistent(a, b)
    requires Coalesce(a.isDefinition, b.isDefinition) == Some(true) || a.commentId == b.commentId
    ensures MergedState(a, b) == MergedState(b, a)
  {
    var ab, ba := MergedState(a, b), MergedState(b, a);
    CoalesceCommutesWhenAgreeing(a.isDefinition, b.isDefinition);
    CoalesceCommutesWhenAgreeing(a.definition, b.definition);
    CoalesceCommutesWhenAgreeing(a.parent, b.parent);
    MergeCommentIdCommutes(a.commentId, b.commentId);
    assert ab.commentId == ba.commentId;
    MergedOptionalPartsCommute(a.nameParts, b.nameParts);
    MergedOptionalPartsCommute(a.nameWithTypeParts, b.nameWithTypeParts);
    MergedOptionalPartsCommute(a.qualifiedNameParts, b.qualifiedNameParts);
  }

  /** A slot merges order-independently when its shared languages hold compatible lists. */
  lemma MergedOptionalPartsCommute(a: Option<Parts>, b: Option<Parts>)
    requires SlotsCompatible(a, b)
    ensures MergedOptionalParts(a, b) == MergedOptionalParts(b, a)
  {
    if a.Some? && b.Some? {
      MergedPartsCommute(a.value, b.value);
    }
  }

  /** The three projection slots hold the same languages. */
  predicate ParallelSlots(s: ItemState) {
    Languages(s.nameParts) == Languages(s.nameWithTypeParts) == Languages(s.qualifiedNameParts)
  }

  /** Merging keeps the three slots in parallel when both sides have them in parallel. */
  lemma MergePreservesParallelSlots(a: ItemState, b: ItemState)
    requires ParallelSlots(a) && ParallelSlots(b)
    ensures ParallelSlots(MergedState(a, b))
  {
    MergedLanguages(a.nameParts, b.nameParts);
    MergedLanguages(a.nameWithTypeParts, b.nameWithTypeParts);
    MergedLanguages(a.qualifiedNameParts, b.qualifiedNameParts);
  }

  /** A ReferenceItem: the mutable, mergeable description of one symbol. */
  class ReferenceItem {
    var nameParts: Option<Parts>
    var nameWithTypeParts: Option<Parts>
    var qualifiedNameParts: Option<Parts>
    var isDefinition: Option<bool>
    var definition: Option<string>
    var parent: Option<string>
    var commentId: Option<string>

    /** The value of all fields. */
    function State(): ItemState
      reads this
    {
      ItemState(nameParts, nameWithTypeParts, qualifiedNameParts, isDefinition, definition, parent, commentId)
    }

    /** A new item with every property null. */
    constructor ()
      ensures State() == ItemState(None, None, None, None, None, None, None)
    {
      nameParts, nameWithTypeParts, qualifiedNameParts := None, None, None;
      isDefinition, definition, parent, commentId := None, None, None, None;
    }

    /** A fresh item with equal fields; the three maps are copied list by list. */
    method Clone() returns (result: ReferenceItem)
      ensures fresh(result)
      ensures result.State() == State()
    {
      result := new ReferenceItem();
      result.isDefinition, result.definition, result.parent, result.commentId :=
        isDefinition, definition, parent, commentId;
      result.nameParts := CloneParts(nameParts);
      result.nameWithTypeParts := CloneParts(nameWithTypeParts);
      result.qualifiedNameParts := CloneParts(qualifiedNameParts);
    }

    /**
     * Folds `other` into this item.  A null `other` throws ArgumentNullException and
     * changes nothing.
     */
    method Merge(other: ReferenceItem?) returns (thrown: Option<Exception>)
      modifies this
      ensures other == null ==> thrown == Some(ArgumentNullException("other")) && unchanged(this)
      ensures other != null ==> thrown == None && State() == MergedState(old(State()), old(other.State()))
    {
      if other == null {
        return Some(ArgumentNullException("other"));
      }
      isDefinition := Coalesce(other.isDefinition, isDefinition);
      definition := Coalesce(other.definition, definition);
      parent := Coalesce(other.parent, parent);
      if isDefinition == Some(true) {
        commentId := MergeCommentId(other.commentId, commentId);
      }
      nameParts := MergeParts(nameParts, other.nameParts);
      nameWithTypeParts := MergeParts(nameWithTypeParts, other.nameWithTypeParts);
      qualifiedNameParts := MergeParts(qualifiedNameParts, other.qualifiedNameParts);
      thrown := None;
    }
  }

  /** A caller's view: merging an item with its own clone only clears an unresolved definition comment id. */
  method MergeWithOwnClone(item: ReferenceItem)
    modifies item
    ensures item.State() == old(item.State()).(commentId :=
      if old(item.isDefinition) == Some(true) && !IsResolved(old(item.commentId)) then None else old(item.commentId))
  {
    var copy := item.Clone();
    var thrown := item.Merge(copy);
    MergeWithCopy(old(item.State()));
  }
}
