/** The `ExploitFilter` object of js/chromekit.js: the elements the page
    matches, the index built over them once, and the methods that build the
    index, apply the rule of `ExploitRule` to the checked inputs and show or
    hide each element. The DOM is abstracted to an array of element records. */
module ExploitSearch {
  import opened JsText
  import opened ExploitIndex
  import opened ExploitRule

  /** A matched `details` element: the texts of its `searchi` tags, which the
      filter never changes, and the two parts of its state that `toggleItem`
      writes: the inline `style.display` and the `hidden` attribute (absent,
      or present with a value). */
  datatype Element = Element(tags: seq<string>, display: string, hidden: Option<string>)

  /** Displayed as a block, with no `hidden` attribute. */
  predicate IsShown(e: Element)
  {
    e.display == "block" && e.hidden.None?
  }

  /** Not displayed, and `hidden` so that find-in-page can still reveal it. */
  predicate IsHidden(e: Element)
  {
    e.display == "none" && e.hidden == Some("until-found")
  }

  /** The element after `toggleItem(element, show)` (lines 231-239). */
  function Toggled(e: Element, show: bool): (r: Element)
    ensures r.tags == e.tags
    ensures IsShown(r) == show && IsHidden(r) == !show
  {
    if show then e.(display := "block", hidden := None)
    else e.(display := "none", hidden := Some("until-found"))
  }

  /** Only the last toggle counts, so applying the filter twice with the
      same inputs leaves each element as applying it once does. */
  lemma LastToggleWins(e: Element, first: bool, second: bool)
    ensures Toggled(Toggled(e, first), second) == Toggled(e, second)
  {
  }

  /** The tag texts of each element, in document order. */
  function TagsOf(elements: seq<Element>): (r: seq<seq<string>>)
    ensures |r| == |elements|
    ensures forall i :: 0 <= i < |elements| ==> r[i] == elements[i].tags
  {
    seq(|elements|, i requires 0 <= i < |elements| => elements[i].tags)
  }

  /** How many of `elements` are shown. */
  function CountShown(elements: seq<Element>): (n: nat)
    ensures n <= |elements|
  {
    if elements == [] then 0
    else CountShown(elements[..|elements| - 1]) + (if IsShown(elements[|elements| - 1]) then 1 else 0)
  }

  /** The positions of the shown elements. */
  ghost function ShownIndices(elements: seq<Element>): set<nat>
  {
    set i: nat | i < |elements| && IsShown(elements[i])
  }

  /** The shown positions of a sequence one element longer. */
  lemma ShownIndicesSnoc(elements: seq<Element>)
    requires elements != []
    ensures var k := |elements| - 1;
      ShownIndices(elements) ==
        ShownIndices(elements[..k]) + (if IsShown(elements[k]) then {k} else {})
  {
    var k := |elements| - 1;
    var init := elements[..k];
    var extra: set<nat> := if IsShown(elements[k]) then {k} else {};
    forall i: nat | i in ShownIndices(elements)
      ensures i in ShownIndices(init) + extra
    {
      if i < k {
        assert init[i] == elements[i];
      }
    }
    forall i: nat | i in ShownIndices(init) + extra
      ensures i in ShownIndices(elements)
    {
      if i < k {
        assert init[i] == elements[i];
      }
    }
  }

  /** `CountShown` is the number of shown elements. */
  lemma {:induction false} CountShownIsSize(elements: seq<Element>)
    ensures CountShown(elements) == |ShownIndices(elements)|
  {
    if elements != [] {
      var k := |elements| - 1;
      CountShownIsSize(elements[..k]);
      ShownIndicesSnoc(elements);
      assert k !in ShownIndices(elements[..k]);
    }
  }

  /** One more element at the end of a slice that grows by one. */
  lemma Snoc<T>(done: seq<T>, s: seq<T>, n: nat)
    requires n < |s|
    ensures done + s[..n + 1] == (done + s[..n]) + [s[n]]
  {
    assert s[..n + 1] == s[..n] + [s[n]];
  }

  /** One more part adds its token at the end. */
  lemma TokensSnoc(parts: seq<string>, part: string)
    ensures Tokens(parts + [part]) == Tokens(parts) + [Classify(part)]
  {
  }

  /** One more token adds its value to the Set of its kind, `set.add`. */
  lemma AddToken(tokens: seq<Token>, token: Token)
    ensures VersionsOf(tokens + [token]) ==
      if token.Version? then AddUnique(VersionsOf(tokens), token.value) else VersionsOf(tokens)
    ensures TermsOf(tokens + [token]) ==
      if token.Term? then AddUnique(TermsOf(tokens), token.text) else TermsOf(tokens)
  {
    assert (tokens + [token])[..|tokens|] == tokens;
  }

  /** One more tag adds its parts at the end. */
  lemma AllPartsSnoc(tags: seq<string>, t: nat)
    requires t < |tags|
    ensures AllParts(tags[..t + 1]) == AllParts(tags[..t]) + TagParts(tags[t])
  {
    assert tags[..t + 1][..t] == tags[..t];
  }

  /** The inner loop of lines 85-94: each part of one tag goes into the Set
      of its kind, after the parts `done` of the earlier tags. */
  method AddParts(ghost done: seq<string>, parts: seq<string>, versions0: seq<real>, terms0: seq<string>)
    returns (versions: seq<real>, terms: seq<string>)
    requires versions0 == VersionsOf(Tokens(done)) && terms0 == TermsOf(Tokens(done))
    ensures versions == VersionsOf(Tokens(done + parts))
    ensures terms == TermsOf(Tokens(done + parts))
  {
    versions, terms := versions0, terms0;
    var p := 0;
    assert done + parts[..0] == done;
    while p < |parts|
      invariant 0 <= p <= |parts|
      invariant versions == VersionsOf(Tokens(done + parts[..p]))
      invariant terms == TermsOf(Tokens(done + parts[..p]))
    {
      var token := Classify(parts[p]);
      AddToken(Tokens(done + parts[..p]), token);
      match token {
        case Version(v) =>
          if v !in versions {
            versions := versions + [v];
          }
        case Term(term) =>
          if term !in terms {
            terms := terms + [term];
          }
      }
      TokensSnoc(done + parts[..p], parts[p]);
      Snoc(done, parts, p);
      p := p + 1;
    }
    assert parts[..p] == parts;
  }

  /** The callback of line 70 for one element: its entry in the index, built
      by the loops of lines 83-95 that fill the two Sets. */
  method IndexElement(element: nat, searchTags: seq<string>) returns (entry: IndexEntry)
    ensures entry == EntryFor(element, searchTags)
  {
    if |searchTags| == 0 {
      return IndexEntry(element, true, [], []);
    }
    var versions: seq<real> := [];
    var terms: seq<string> := [];
    var t := 0;
    while t < |searchTags|
      invariant 0 <= t <= |searchTags|
      invariant versions == VersionsOf(Tokens(AllParts(searchTags[..t])))
      invariant terms == TermsOf(Tokens(AllParts(searchTags[..t])))
    {
      versions, terms := AddParts(AllParts(searchTags[..t]), TagParts(searchTags[t]), versions, terms);
      AllPartsSnoc(searchTags, t);
      t := t + 1;
    }
    assert searchTags[..t] == searchTags;
    entry := IndexEntry(element, false, versions, terms);
  }

  /** The index of one more element ends with that element's entry. */
  lemma IndexOfSnoc(page: seq<seq<string>>, tags: seq<string>)
    ensures IndexOf(page + [tags]) == IndexOf(page) + [EntryFor(|page|, tags)]
  {
  }

  /** The tags of a prefix one element longer. */
  lemma TagsOfSnoc(elements: seq<Element>, n: nat)
    requires n < |elements|
    ensures TagsOf(elements[..n + 1]) == TagsOf(elements[..n]) + [elements[n].tags]
  {
  }

  /** Counting shown elements over a prefix one element longer. */
  lemma CountShownSnoc(elements: seq<Element>, n: nat)
    requires n < |elements|
    ensures CountShown(elements[..n + 1]) == CountShown(elements[..n]) + if IsShown(elements[n]) then 1 else 0
  {
    assert elements[..n + 1][..n] == elements[..n];
  }

  /** Counting visible items over a prefix one item longer. */
  lemma CountVisibleSnoc(index: seq<IndexEntry>, n: nat, sel: Selection)
    requires n < |index|
    ensures CountVisible(index[..n + 1], sel) == CountVisible(index[..n], sel) + if IsVisible(index[n], sel) then 1 else 0
  {
    assert index[..n + 1][..n] == index[..n];
  }

  /** The callback form of `IsVisible`: the decision the `forEach` callback
      of lines 150-226 takes for one item, step by step. Its result is the
      rule read as tests on the item's own tags. */
  method Decide(item: IndexEntry, sel: Selection) returns (isVisible: bool)
    ensures isVisible == IsVisible(item, sel)
    ensures isVisible <==>
      || item.isEmpty
      || (!VersionFilterActive(sel) && !TermFilterActive(sel))
      || (&& (!VersionFilterActive(sel) || exists r, v :: r in item.versions && v in sel.versions && r <= v)
          && (!TermFilterActive(sel) || exists t :: t in item.terms && t in sel.terms))
  {
    VisibleIff(item, sel);
    if item.isEmpty {
      return true;
    }
    var hasActiveVersionFilter := VersionFilterActive(sel);
    var hasActiveTermFilter := TermFilterActive(sel);
    var vPass := VersionPass(item, sel);
    var tPass := TermPass(item, sel);
    isVisible := if !hasActiveVersionFilter && !hasActiveTermFilter then true else vPass && tPass;
  }

  class ExploitFilter {
    /** The elements matched by `itemSelector`, in document order. */
    const elements: array<Element>
    /** `itemsIndex`: one entry per indexed element. */
    var itemsIndex: seq<IndexEntry>

    /** Entry `i` of the index belongs to element `i`. */
    ghost predicate Valid()
      reads this
    {
      && |itemsIndex| <= elements.Length
      && forall i :: 0 <= i < |itemsIndex| ==> itemsIndex[i].element == i
    }

    /** The constructor and `init` (lines 11-44): without its container or
        its form the filter stops with an empty index; otherwise it indexes
        the page. */
    constructor (page: seq<Element>, widgetFound: bool)
      ensures Valid()
      ensures fresh(elements) && elements[..] == page
      ensures itemsIndex == if widgetFound then IndexOf(TagsOf(page)) else []
    {
      elements := new Element[|page|](i requires 0 <= i < |page| => page[i]);
      itemsIndex := [];
      new;
      if widgetFound {
        IndexItems();
      }
    }

    /** `indexItems` (lines 67-106): the index of the page as it is. */
    method IndexItems()
      modifies this`itemsIndex
      ensures Valid()
      ensures itemsIndex == IndexOf(TagsOf(elements[..]))
    {
      var index: seq<IndexEntry> := [];
      var n := 0;
      while n < elements.Length
        invariant 0 <= n <= elements.Length
        invariant index == IndexOf(TagsOf(elements[..n]))
      {
        var entry := IndexElement(n, elements[n].tags);
        TagsOfSnoc(elements[..], n);
        IndexOfSnoc(TagsOf(elements[..n]), elements[n].tags);
        index := index + [entry];
        n := n + 1;
      }
      assert elements[..n] == elements[..];
      itemsIndex := index;
      IndexShape(TagsOf(elements[..]));
    }

    /** `toggleItem` (lines 231-239): shows or hides one element and leaves
        the others as they are. */
    method ToggleItem(element: nat, show: bool)
      requires element < elements.Length
      modifies elements
      ensures elements[element] == Toggled(old(elements[element]), show)
      ensures forall i :: 0 <= i < elements.Length && i != element ==> elements[i] == old(elements[i])
    {
      elements[element] := Toggled(elements[element], show);
    }

    /** `applyFilter` (lines 132-229): every indexed element is shown iff the
        rule makes it visible, the others are left alone, and the returned
        `matchCount` is both the number of visible items and the number of
        indexed elements now shown. */
    method ApplyFilter(checkedValues: seq<string>) returns (matchCount: nat)
      requires Valid()
      modifies elements
      ensures matchCount == CountVisible(itemsIndex, SelectionOf(checkedValues))
      ensures matchCount == CountShown(elements[..|itemsIndex|])
      ensures forall i :: 0 <= i < |itemsIndex| ==>
        elements[i] == Toggled(old(elements[i]), IsVisible(itemsIndex[i], SelectionOf(checkedValues)))
      ensures forall i :: |itemsIndex| <= i < elements.Length ==> elements[i] == old(elements[i])
    {
      var sel := SelectionOf(checkedValues);
      matchCount := 0;
      var n := 0;
      while n < |itemsIndex|
        invariant 0 <= n <= |itemsIndex|
        invariant matchCount == CountVisible(itemsIndex[..n], sel)
        invariant matchCount == CountShown(elements[..n])
        invariant forall i :: 0 <= i < n ==>
          elements[i] == Toggled(old(elements[i]), IsVisible(itemsIndex[i], sel))
        invariant forall i :: n <= i < elements.Length ==> elements[i] == old(elements[i])
      {
        var item := itemsIndex[n];
        var isVisible := Decide(item, sel);
        ghost var before := elements[..n];
        ToggleItem(item.element, isVisible);
        if isVisible {
          matchCount := matchCount + 1;
        }
        assert elements[..n] == before by {
          forall i | 0 <= i < n ensures elements[..n][i] == before[i] {
            assert i != item.element;
          }
        }
        CountVisibleSnoc(itemsIndex, n, sel);
        CountShownSnoc(elements[..], n);
        n := n + 1;
      }
      assert itemsIndex[..n] == itemsIndex;
    }
  }
}
