/** The visibility rule of the exploit filter (`applyFilter`,
    js/chromekit.js:132-229): how the values of the checked inputs become a
    selection, and which indexed items a selection shows. The flags
    `versionMatch` and `termMatch` computed at lines 161-192 never reach the
    outcome; the rule here is the one of lines 206-225. */
module ExploitRule {
  import opened JsText
  import opened ExploitIndex

  /** What the checked inputs select, as the arrays of lines 136-142 keep
      them, in input order and with repetitions: the numeric values
      (`selectedVersions`), the lower-cased other values (`selectedTerms`),
      and how many blank values went into `selectedVersions` as NaN. A blank
      value passes the `!isNaN` test of line 137 (it converts to 0) but
      `parseFloat` makes it NaN, which no requirement is at most. */
  datatype Selection = Selection(versions: seq<real>, blankVersions: nat, terms: seq<string>)

  /** `selectedVersions.length > 0` (line 206). */
  predicate VersionFilterActive(sel: Selection)
  {
    |sel.versions| + sel.blankVersions > 0
  }

  /** `selectedTerms.length > 0` (line 207). */
  predicate TermFilterActive(sel: Selection)
  {
    |sel.terms| > 0
  }

  /** How many of `values` are empty or white space only. */
  function CountBlank(values: seq<string>): nat
  {
    if values == [] then 0
    else (if Trim(values[0]) == [] then 1 else 0) + CountBlank(values[1..])
  }

  /** A blank value among `values` is counted. */
  lemma {:induction false} SomeBlankCounted(values: seq<string>, x: string)
    requires x in values && Trim(x) == []
    ensures CountBlank(values) > 0
  {
    if values[0] != x {
      assert x in values[1..];
      SomeBlankCounted(values[1..], x);
    }
  }

  /** The values that are not empty or white space only, in order; every
      value dropped is a blank one. */
  function NonBlank(values: seq<string>): (r: seq<string>)
    ensures |r| + CountBlank(values) == |values|
    ensures forall x :: x in r <==> x in values && Trim(x) != []
  {
    if values == [] then []
    else if Trim(values[0]) == [] then NonBlank(values[1..])
    else [values[0]] + NonBlank(values[1..])
  }

  /** `.filter(numeric).map(parseFloat)` over classified values. */
  function VersionValues(tokens: seq<Token>): seq<real>
  {
    if tokens == [] then []
    else
      (match tokens[0] case Version(v) => [v] case Term(_) => []) + VersionValues(tokens[1..])
  }

  /** `.filter(non-numeric).map(toLowerCase)` over classified values. */
  function TermTexts(tokens: seq<Token>): seq<string>
  {
    if tokens == [] then []
    else
      (match tokens[0] case Version(_) => [] case Term(t) => [t]) + TermTexts(tokens[1..])
  }

  /** Lines 134-142: the selection made by the `esterm-value`s of the checked
      inputs. A value that is not blank is a version or a term by the same
      test the index uses. */
  function SelectionOf(checkedValues: seq<string>): Selection
  {
    var kept := NonBlank(checkedValues);
    var tokens := Tokens(kept);
    Selection(VersionValues(tokens), |checkedValues| - |kept|, TermTexts(tokens))
  }

  /** Every classified value lands in exactly one of the two lists, and
      nothing else does. */
  lemma {:induction false} SplitTokens(tokens: seq<Token>)
    ensures |VersionValues(tokens)| + |TermTexts(tokens)| == |tokens|
    ensures forall v :: v in VersionValues(tokens) <==> Version(v) in tokens
    ensures forall t :: t in TermTexts(tokens) <==> Term(t) in tokens
  {
    if tokens != [] {
      SplitTokens(tokens[1..]);
      assert tokens == [tokens[0]] + tokens[1..];
    }
  }

  /** The versions and terms selected are those of the non-blank values. */
  lemma SelectionValues(checkedValues: seq<string>)
    ensures var sel := SelectionOf(checkedValues);
      && (forall x :: x in checkedValues && Trim(x) != [] ==>
            match Classify(x)
            case Version(v) => v in sel.versions
            case Term(t) => t in sel.terms)
      && (forall v :: v in sel.versions ==>
            exists x :: x in checkedValues && Trim(x) != [] && Classify(x) == Version(v))
      && (forall t :: t in sel.terms ==>
            exists x :: x in checkedValues && Trim(x) != [] && Classify(x) == Term(t))
  {
    var kept := NonBlank(checkedValues);
    SplitTokens(Tokens(kept));
    TokensOfParts(kept);
  }

  /** Every blank value counts as one NaN version, so a single one switches
      the version filter on. */
  lemma SelectionBlanks(checkedValues: seq<string>)
    ensures var sel := SelectionOf(checkedValues);
      && |sel.versions| + sel.blankVersions + |sel.terms| == |checkedValues|
      && sel.blankVersions == CountBlank(checkedValues)
      && ((exists x :: x in checkedValues && Trim(x) == []) ==> VersionFilterActive(sel))
  {
    SplitTokens(Tokens(NonBlank(checkedValues)));
    if exists x :: x in checkedValues && Trim(x) == [] {
      var x :| x in checkedValues && Trim(x) == [];
      SomeBlankCounted(checkedValues, x);
    }
  }

  /** Every checked value counts once, as a version, a blank or a term; the
      blanks are counted one for one; the selection holds the value of every
      numeric value and the lower-cased text of every other non-blank one,
      and only those. */
  lemma SelectionContents(checkedValues: seq<string>)
    ensures var sel := SelectionOf(checkedValues);
      && |sel.versions| + sel.blankVersions + |sel.terms| == |checkedValues|
      && sel.blankVersions == CountBlank(checkedValues)
      && ((exists x :: x in checkedValues && Trim(x) == []) ==> VersionFilterActive(sel))
      && (forall x :: x in checkedValues && Trim(x) != [] ==>
            match Classify(x)
            case Version(v) => v in sel.versions
            case Term(t) => t in sel.terms)
      && (forall v :: v in sel.versions ==>
            exists x :: x in checkedValues && Trim(x) != [] && Classify(x) == Version(v))
      && (forall t :: t in sel.terms ==>
            exists x :: x in checkedValues && Trim(x) != [] && Classify(x) == Term(t))
  {
    SelectionBlanks(checkedValues);
    SelectionValues(checkedValues);
  }

  /** No filter is active exactly when no input is checked. */
  lemma NothingSelectedIffNoneChecked(checkedValues: seq<string>)
    ensures var sel := SelectionOf(checkedValues);
      (!VersionFilterActive(sel) && !TermFilterActive(sel)) <==> checkedValues == []
  {
    SplitTokens(Tokens(NonBlank(checkedValues)));
  }

  // ---------------------------------------------------------------------------
  // The rule

  /** `sel.some(v => req <= v)`. */
  predicate SomeAtLeast(sel: seq<real>, req: real)
  {
    sel != [] && (req <= sel[0] || SomeAtLeast(sel[1..], req))
  }

  /** `reqs.some(req => sel.some(v => req <= v))` (line 210). */
  predicate SomeRequirementMet(reqs: seq<real>, sel: seq<real>)
  {
    reqs != [] && (SomeAtLeast(sel, reqs[0]) || SomeRequirementMet(reqs[1..], sel))
  }

  /** `terms.some(req => sel.includes(req))` (line 214). */
  predicate SomeSelected(terms: seq<string>, sel: seq<string>)
  {
    terms != [] && (terms[0] in sel || SomeSelected(terms[1..], sel))
  }

  /** `vPass` (lines 209-211): an inactive version filter passes. */
  predicate VersionPass(item: IndexEntry, sel: Selection)
  {
    if VersionFilterActive(sel) then SomeRequirementMet(item.versions, sel.versions) else true
  }

  /** `tPass` (lines 213-215): an inactive term filter passes. */
  predicate TermPass(item: IndexEntry, sel: Selection)
  {
    if TermFilterActive(sel) then SomeSelected(item.terms, sel.terms) else true
  }

  /** Whether `applyFilter` shows the item: untagged items always (lines
      151-156), everything when nothing is selected, otherwise both tests
      (lines 220-222). */
  predicate IsVisible(item: IndexEntry, sel: Selection)
  {
    if item.isEmpty then true
    else if !VersionFilterActive(sel) && !TermFilterActive(sel) then true
    else VersionPass(item, sel) && TermPass(item, sel)
  }

  /** The number of items of `index` that `sel` shows: `matchCount`. */
  function CountVisible(index: seq<IndexEntry>, sel: Selection): (n: nat)
    ensures n <= |index|
  {
    if index == [] then 0
    else CountVisible(index[..|index| - 1], sel) + (if IsVisible(index[|index| - 1], sel) then 1 else 0)
  }

  /** The positions of the items `sel` shows. */
  ghost function VisibleIndices(index: seq<IndexEntry>, sel: Selection): set<nat>
  {
    set i: nat | i < |index| && IsVisible(index[i], sel)
  }

  /** The visible positions of an index one item longer. */
  lemma VisibleIndicesSnoc(index: seq<IndexEntry>, sel: Selection)
    requires index != []
    ensures var k := |index| - 1;
      VisibleIndices(index, sel) ==
        VisibleIndices(index[..k], sel) + (if IsVisible(index[k], sel) then {k} else {})
  {
    var k := |index| - 1;
    var init := index[..k];
    var extra: set<nat> := if IsVisible(index[k], sel) then {k} else {};
    forall i: nat | i in VisibleIndices(index, sel)
      ensures i in VisibleIndices(init, sel) + extra
    {
      if i < k {
        assert init[i] == index[i];
      }
    }
    forall i: nat | i in VisibleIndices(init, sel) + extra
      ensures i in VisibleIndices(index, sel)
    {
      if i < k {
        assert init[i] == index[i];
      }
    }
  }

  /** `CountVisible` is the number of items `sel` shows. */
  lemma {:induction false} CountVisibleIsSize(index: seq<IndexEntry>, sel: Selection)
    ensures CountVisible(index, sel) == |VisibleIndices(index, sel)|
  {
    if index != [] {
      var k := |index| - 1;
      CountVisibleIsSize(index[..k], sel);
      VisibleIndicesSnoc(index, sel);
      assert k !in VisibleIndices(index[..k], sel);
    }
  }

  // ---------------------------------------------------------------------------
  // What the rule promises

  lemma {:induction false} SomeAtLeastIff(sel: seq<real>, req: real)
    ensures SomeAtLeast(sel, req) <==> exists j :: 0 <= j < |sel| && req <= sel[j]
  {
    if sel != [] {
      SomeAtLeastIff(sel[1..], req);
      if exists j :: 0 <= j < |sel| && req <= sel[j] {
        var j :| 0 <= j < |sel| && req <= sel[j];
        if j > 0 {
          assert req <= sel[1..][j - 1];
        }
      }
    }
  }

  /** The version test: some requirement is at most some selected version. */
  lemma {:induction false} VersionTest(reqs: seq<real>, sel: seq<real>)
    ensures SomeRequirementMet(reqs, sel) <==>
      exists i, j :: 0 <= i < |reqs| && 0 <= j < |sel| && reqs[i] <= sel[j]
  {
    if reqs != [] {
      VersionTest(reqs[1..], sel);
      SomeAtLeastIff(sel, reqs[0]);
      if exists i, j :: 0 <= i < |reqs| && 0 <= j < |sel| && reqs[i] <= sel[j] {
        var i, j :| 0 <= i < |reqs| && 0 <= j < |sel| && reqs[i] <= sel[j];
        if i > 0 {
          assert reqs[1..][i - 1] <= sel[j];
        }
      }
      if SomeRequirementMet(reqs[1..], sel) {
        var i, j :| 0 <= i < |reqs[1..]| && 0 <= j < |sel| && reqs[1..][i] <= sel[j];
        assert reqs[i + 1] <= sel[j];
      }
    }
  }

  /** The term test: some term of the item is among the selected terms. */
  lemma {:induction false} TermTest(terms: seq<string>, sel: seq<string>)
    ensures SomeSelected(terms, sel) <==> exists i :: 0 <= i < |terms| && terms[i] in sel
  {
    if terms != [] {
      TermTest(terms[1..], sel);
      if exists i :: 0 <= i < |terms| && terms[i] in sel {
        var i :| 0 <= i < |terms| && terms[i] in sel;
        if i > 0 {
          assert terms[1..][i - 1] in sel;
        }
      }
    }
  }

  /** The whole rule: an item is shown iff it is untagged, or nothing is
      selected, or it passes the version test when the version filter is
      active and the term test when the term filter is active. */
  lemma VisibleIff(item: IndexEntry, sel: Selection)
    ensures IsVisible(item, sel) <==>
      || item.isEmpty
      || (!VersionFilterActive(sel) && !TermFilterActive(sel))
      || (&& (!VersionFilterActive(sel) ||
                exists r, v :: r in item.versions && v in sel.versions && r <= v)
          && (!TermFilterActive(sel) ||
                exists t :: t in item.terms && t in sel.terms))
  {
    VersionTest(item.versions, sel.versions);
    TermTest(item.terms, sel.terms);
    if exists r, v :: r in item.versions && v in sel.versions && r <= v {
      var r, v :| r in item.versions && v in sel.versions && r <= v;
      var i :| 0 <= i < |item.versions| && item.versions[i] == r;
      var j :| 0 <= j < |sel.versions| && sel.versions[j] == v;
    }
    if SomeRequirementMet(item.versions, sel.versions) {
      var i, j :| 0 <= i < |item.versions| && 0 <= j < |sel.versions| && item.versions[i] <= sel.versions[j];
      assert item.versions[i] in item.versions && sel.versions[j] in sel.versions;
    }
    if SomeSelected(item.terms, sel.terms) {
      var i :| 0 <= i < |item.terms| && item.terms[i] in sel.terms;
      assert item.terms[i] in item.terms;
    }
  }

  /** Untagged items are shown, whatever is checked. */
  lemma UntaggedAlwaysShown(page: seq<seq<string>>, checkedValues: seq<string>)
    ensures forall i :: 0 <= i < |page| && page[i] == [] ==>
      IsVisible(IndexOf(page)[i], SelectionOf(checkedValues))
  {
  }

  /** With no input checked, every item is shown and counted. */
  lemma {:induction false} NothingCheckedShowsAll(index: seq<IndexEntry>)
    ensures forall i :: 0 <= i < |index| ==> IsVisible(index[i], SelectionOf([]))
    ensures CountVisible(index, SelectionOf([])) == |index|
  {
    NothingSelectedIffNoneChecked([]);
    if index != [] {
      NothingCheckedShowsAll(index[..|index| - 1]);
    }
  }

  /** A tagged item without version requirements fails an active version
      filter. */
  lemma NoRequirementFailsVersionFilter(item: IndexEntry, sel: Selection)
    requires !item.isEmpty && item.versions == [] && VersionFilterActive(sel)
    ensures !IsVisible(item, sel)
  {
  }

  /** `sel2` selects at least what `sel1` does, and activates no filter that
      `sel1` leaves inactive. */
  predicate Widens(sel1: Selection, sel2: Selection)
  {
    && (forall v :: v in sel1.versions ==> v in sel2.versions)
    && (forall t :: t in sel1.terms ==> t in sel2.terms)
    && (!VersionFilterActive(sel1) ==> !VersionFilterActive(sel2))
    && (!TermFilterActive(sel1) ==> !TermFilterActive(sel2))
  }

  /** Checking more values of an already active filter never hides an item;
      in particular enlarging a non-empty set of selected versions never turns
      a pass into a fail. */
  lemma WideningKeepsVisible(item: IndexEntry, sel1: Selection, sel2: Selection)
    requires Widens(sel1, sel2)
    requires IsVisible(item, sel1)
    ensures IsVisible(item, sel2)
  {
    VisibleIff(item, sel1);
    VisibleIff(item, sel2);
  }

  /** ... and so never lowers the match count. */
  lemma {:induction false} WideningKeepsCount(index: seq<IndexEntry>, sel1: Selection, sel2: Selection)
    requires Widens(sel1, sel2)
    ensures CountVisible(index, sel1) <= CountVisible(index, sel2)
  {
    if index != [] {
      WideningKeepsCount(index[..|index| - 1], sel1, sel2);
      if IsVisible(index[|index| - 1], sel1) {
        WideningKeepsVisible(index[|index| - 1], sel1, sel2);
      }
    }
  }

  /** Activating a filter is not a widening: a first checked version hides
      a tagged item whose requirement it does not meet. */
  lemma FirstVersionCanHide()
    ensures var item := IndexEntry(0, false, [9.0], []);
      IsVisible(item, Selection([], 0, [])) && !IsVisible(item, Selection([5.05], 0, []))
  {
    assert !SomeAtLeast([5.05], 9.0) by {
      assert [5.05][1..] == [];
    }
    assert [9.0][1..] == [];
  }

  /** A checked input with a blank value turns the version filter on with
      nothing that a requirement can meet: alone, it hides every tagged
      item. */
  lemma BlankValueHidesTagged(value: string, item: IndexEntry)
    requires Trim(value) == [] && !item.isEmpty
    ensures SelectionOf([value]) == Selection([], 1, [])
    ensures !IsVisible(item, SelectionOf([value]))
  {
    assert [value][1..] == [];
    VersionTest(item.versions, []);
  }
}
