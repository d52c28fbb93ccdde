/** The tokenising indexer of the exploit filter (`ExploitFilter.indexItems`,
    js/chromekit.js:67-106) as specification functions, and what the index it
    builds is promised to hold. The page is given as the tag texts of each
    matched `details` element, in document order. */
module ExploitIndex {
  import opened JsText

  /** One entry of `itemsIndex`: the position of its element in document
      order, whether it had no `searchi` tags, and the deduplicated numeric
      versions and lower-cased terms of its tags, in first-seen order. */
  datatype IndexEntry = IndexEntry(element: nat, isEmpty: bool, versions: seq<real>, terms: seq<string>)

  /** No value occurs twice in `s`, as in the contents of a JavaScript Set. */
  predicate Distinct<T(==)>(s: seq<T>)
  {
    forall i, j :: 0 <= i < j < |s| ==> s[i] != s[j]
  }

  /** `set.add(x)` on a Set kept as its contents in insertion order. */
  function AddUnique<T(==,!new)>(s: seq<T>, x: T): (r: seq<T>)
    ensures Distinct(s) ==> Distinct(r)
    ensures forall y :: y in r <==> y in s || y == x
    ensures s <= r
  {
    if x in s then s else s + [x]
  }

  /** A part as it leaves line 85: non-empty, free of `;`, trimmed. */
  predicate IsCleanPart(p: string)
  {
    p != [] && ';' !in p && IsTrimmed(p)
  }

  /** `pieces.map(s => s.trim())`. */
  function TrimEach(pieces: seq<string>): (r: seq<string>)
    ensures |r| == |pieces|
    ensures forall k :: 0 <= k < |r| ==> r[k] == Trim(pieces[k])
    ensures forall k :: 0 <= k < |r| ==> IsTrimmed(r[k]) && (';' !in pieces[k] ==> ';' !in r[k])
  {
    seq(|pieces|, k requires 0 <= k < |pieces| => Trim(pieces[k]))
  }

  /** `pieces.filter(s => s.length > 0)`. */
  function DropEmpty(pieces: seq<string>): (r: seq<string>)
    ensures forall p :: p in r <==> p in pieces && p != []
  {
    if pieces == [] then []
    else if pieces[0] == [] then DropEmpty(pieces[1..])
    else [pieces[0]] + DropEmpty(pieces[1..])
  }

  /** The parts of one tag's text: split on `;`, trimmed, empty ones dropped. */
  function TagParts(content: string): (r: seq<string>)
    ensures forall k :: 0 <= k < |r| ==> IsCleanPart(r[k])
  {
    var trimmed := TrimEach(Split(content, ';'));
    var r := DropEmpty(trimmed);
    forall k | 0 <= k < |r| ensures IsCleanPart(r[k]) {
      assert r[k] in trimmed;
    }
    r
  }

  /** The parts of all tags of one element, tag after tag. */
  function AllParts(tags: seq<string>): (r: seq<string>)
    ensures forall k :: 0 <= k < |r| ==> IsCleanPart(r[k])
  {
    if tags == [] then []
    else AllParts(tags[..|tags| - 1]) + TagParts(tags[|tags| - 1])
  }

  /** What lines 88-93 make of one part: a version (its `parseFloat` value)
      when the part is strictly numeric, otherwise a lower-cased term. */
  datatype Token = Version(value: real) | Term(text: string)

  function Classify(part: string): (t: Token)
    ensures t.Term? ==> ParseNumber(part).None?
  {
    match ParseNumber(part)
    case Some(v) => Version(v)
    case None => Term(ToLowerCase(part))
  }

  function Tokens(parts: seq<string>): (r: seq<Token>)
    ensures |r| == |parts|
    ensures forall k :: 0 <= k < |parts| ==> r[k] == Classify(parts[k])
  {
    seq(|parts|, k requires 0 <= k < |parts| => Classify(parts[k]))
  }

  /** The `versions` Set after adding the versions among `tokens` in order. */
  function VersionsOf(tokens: seq<Token>): seq<real>
  {
    if tokens == [] then []
    else
      var prev := VersionsOf(tokens[..|tokens| - 1]);
      match tokens[|tokens| - 1]
      case Version(v) => AddUnique(prev, v)
      case Term(_) => prev
  }

  /** The `terms` Set after adding the terms among `tokens` in order. */
  function TermsOf(tokens: seq<Token>): seq<string>
  {
    if tokens == [] then []
    else
      var prev := TermsOf(tokens[..|tokens| - 1]);
      match tokens[|tokens| - 1]
      case Version(_) => prev
      case Term(t) => AddUnique(prev, t)
  }

  /** The index entry built for the element at position `element` whose
      `searchi` tags have the texts `tags` (lines 70-102). */
  function EntryFor(element: nat, tags: seq<string>): IndexEntry
  {
    if |tags| == 0 then IndexEntry(element, true, [], [])
    else
      var tokens := Tokens(AllParts(tags));
      IndexEntry(element, false, VersionsOf(tokens), TermsOf(tokens))
  }

  /** The whole index, one entry per element in document order (line 70). */
  function IndexOf(page: seq<seq<string>>): seq<IndexEntry>
  {
    seq(|page|, i requires 0 <= i < |page| => EntryFor(i, page[i]))
  }

  // ---------------------------------------------------------------------------
  // What the index holds

  /** A term as the index stores it: non-empty, lower case, free of `;` and
      of white space at either end. */
  predicate IsIndexTerm(t: string)
  {
    IsCleanPart(t) && IsLowerCase(t)
  }

  /** Every part of every tag is among the element's parts, and only those. */
  lemma {:induction false} AllPartsFromTags(tags: seq<string>)
    ensures forall p :: p in AllParts(tags) <==> exists t :: t in tags && p in TagParts(t)
  {
    if tags != [] {
      var init, last := tags[..|tags| - 1], tags[|tags| - 1];
      AllPartsFromTags(init);
      assert AllParts(tags) == AllParts(init) + TagParts(last);
      forall p | p in AllParts(tags)
        ensures exists t :: t in tags && p in TagParts(t)
      {
        if p in TagParts(last) {
          assert last in tags;
        } else {
          var t :| t in init && p in TagParts(t);
          assert t in tags;
        }
      }
      forall p | exists t :: t in tags && p in TagParts(t)
        ensures p in AllParts(tags)
      {
        var t :| t in tags && p in TagParts(t);
        var i :| 0 <= i < |tags| && tags[i] == t;
        if i < |tags| - 1 {
          assert init[i] == t;
        }
      }
    }
  }

  /** The versions are exactly the values of the version tokens, each once. */
  lemma {:induction false} VersionsExact(tokens: seq<Token>)
    ensures Distinct(VersionsOf(tokens))
    ensures forall v :: v in VersionsOf(tokens) <==> Version(v) in tokens
  {
    if tokens != [] {
      var init := tokens[..|tokens| - 1];
      VersionsExact(init);
      assert tokens == init + [tokens[|tokens| - 1]];
    }
  }

  /** The terms are exactly the texts of the term tokens, each once. */
  lemma {:induction false} TermsExact(tokens: seq<Token>)
    ensures Distinct(TermsOf(tokens))
    ensures forall t :: t in TermsOf(tokens) <==> Term(t) in tokens
  {
    if tokens != [] {
      var init := tokens[..|tokens| - 1];
      TermsExact(init);
      assert tokens == init + [tokens[|tokens| - 1]];
    }
  }

  /** Lower-casing a clean part gives a term fit for the index. */
  lemma LowerOfCleanPart(p: string)
    requires IsCleanPart(p)
    ensures IsIndexTerm(ToLowerCase(p))
  {
    var l := ToLowerCase(p);
    assert forall c :: c in l ==> c != ';' by {
      forall c | c in l ensures c != ';' {
        var i :| 0 <= i < |l| && l[i] == c;
        assert p[i] != ';';
      }
    }
  }

  /** Index contents: every term of a tagged element is non-empty, lower case,
      free of `;` and trimmed; no version and no term occurs twice; every
      numeric part of a tag lands in `versions` and every other part, lower
      cased, in `terms`; and nothing else does. */
  lemma EntryContents(element: nat, tags: seq<string>)
    requires tags != []
    ensures var e := EntryFor(element, tags);
      && !e.isEmpty && e.element == element
      && Distinct(e.versions) && Distinct(e.terms)
      && (forall w :: w in e.terms ==> IsIndexTerm(w))
      && (forall t, p :: t in tags && p in TagParts(t) ==>
            match Classify(p)
            case Version(v) => v in e.versions
            case Term(w) => w in e.terms)
      && (forall v :: v in e.versions ==>
            exists t, p :: t in tags && p in TagParts(t) && Classify(p) == Version(v))
      && (forall w :: w in e.terms ==>
            exists t, p :: t in tags && p in TagParts(t) && Classify(p) == Term(w))
  {
    var tokens := Tokens(AllParts(tags));
    TokensFromTags(tags);
    VersionsExact(tokens);
    TermsExact(tokens);
    TermsAreIndexTerms(tags);
  }

  /** The tokens of a list of parts are its parts, classified. */
  lemma TokensOfParts(parts: seq<string>)
    ensures forall p :: p in parts ==> Classify(p) in Tokens(parts)
    ensures forall tok :: tok in Tokens(parts) ==> exists p :: p in parts && Classify(p) == tok
  {
    var tokens := Tokens(parts);
    forall p | p in parts ensures Classify(p) in tokens {
      var k :| 0 <= k < |parts| && parts[k] == p;
      assert tokens[k] == Classify(p);
    }
    forall tok | tok in tokens ensures exists p :: p in parts && Classify(p) == tok {
      var k :| 0 <= k < |tokens| && tokens[k] == tok;
      assert parts[k] in parts;
    }
  }

  /** The tokens of an element are the classified parts of its tags. */
  lemma TokensFromTags(tags: seq<string>)
    ensures forall t, p :: t in tags && p in TagParts(t) ==> Classify(p) in Tokens(AllParts(tags))
    ensures forall tok :: tok in Tokens(AllParts(tags)) ==>
      exists t, p :: t in tags && p in TagParts(t) && Classify(p) == tok
  {
    var parts := AllParts(tags);
    AllPartsFromTags(tags);
    TokensOfParts(parts);
    forall tok | tok in Tokens(parts)
      ensures exists t, p :: t in tags && p in TagParts(t) && Classify(p) == tok
    {
      var p :| p in parts && Classify(p) == tok;
      var t :| t in tags && p in TagParts(t);
    }
  }

  /** Every term token of a tagged element is fit for the index. */
  lemma TermsAreIndexTerms(tags: seq<string>)
    ensures forall w :: Term(w) in Tokens(AllParts(tags)) ==> IsIndexTerm(w)
  {
    var parts := AllParts(tags);
    TokensOfParts(parts);
    forall w | Term(w) in Tokens(parts) ensures IsIndexTerm(w) {
      var p :| p in parts && Classify(p) == Term(w);
      LowerOfCleanPart(p);
    }
  }

  /** Index shape: one entry per element, in document order; an element
      without tags is flagged empty and has neither versions nor terms, and an
      element with tags is never flagged empty. */
  lemma IndexShape(page: seq<seq<string>>)
    ensures |IndexOf(page)| == |page|
    ensures forall i :: 0 <= i < |page| ==> IndexOf(page)[i].element == i
    ensures forall i :: 0 <= i < |page| ==>
      (IndexOf(page)[i].isEmpty <==> page[i] == [])
    ensures forall i :: 0 <= i < |page| && IndexOf(page)[i].isEmpty ==>
      IndexOf(page)[i].versions == [] && IndexOf(page)[i].terms == []
  {
  }

  /** A trimmed part that starts with a letter is a term. */
  lemma WordIsTerm(w: string)
    requires w != [] && IsTrimmed(w) && !IsNumeralChar(w[0])
    ensures Classify(w) == Term(ToLowerCase(w))
  {
    TrimIdempotent(w);
    NonNumeralStart(w);
  }

  lemma NineParses()
    ensures ParseNumber("9") == Some(9.0)
  {
    TrimIdempotent("9");
  }

  /** "9.00" is a whole part 9 and a fraction of zeros. */
  lemma NinePointZeroZeroValue()
    ensures ParseUnsignedDecimal("9.00") == Some(9.0)
  {
    var s := "9.00";
    assert s[..1] == "9" && s[2..] == "00";
    assert DigitsValue("9") == 9;
    ZerosFraction("00");
    UnsignedAtDot(s, 1);
  }

  lemma NinePointZeroZeroParses()
    ensures ParseNumber("9.00") == Some(9.0)
  {
    NinePointZeroZeroValue();
    UnsignedParse("9.00");
    TrimmedParse("9.00");
  }

  /** A token added twice lands in its Set once. */
  lemma SameTokenTwice(tokens: seq<Token>)
    requires |tokens| == 2 && tokens[0] == tokens[1]
    ensures VersionsOf(tokens) == if tokens[0].Version? then [tokens[0].value] else []
    ensures TermsOf(tokens) == if tokens[0].Term? then [tokens[0].text] else []
  {
    var t, first := tokens[0], tokens[..1];
    assert first[..0] == [] && first[0] == t;
    assert VersionsOf(first) == if t.Version? then [t.value] else [];
    assert TermsOf(first) == if t.Term? then [t.text] else [];
    assert tokens[..|tokens| - 1] == first && tokens[|tokens| - 1] == t;
  }

  /** Numerically equal versions collapse: "9" and "9.00" give the single
      version 9. */
  lemma VersionsCollapse()
    ensures VersionsOf(Tokens(["9", "9.00"])) == [9.0]
  {
    NineParses();
    NinePointZeroZeroParses();
    var tokens := Tokens(["9", "9.00"]);
    assert tokens[0] == Version(9.0) == tokens[1];
    SameTokenTwice(tokens);
  }

  /** Terms are compared after lower-casing: two non-numeric parts that
      differ only in case ("Kernel" and "KERNEL") give a single term. */
  lemma TermsCollapse(p: string, q: string)
    requires ParseNumber(p).None? && ParseNumber(q).None?
    requires ToLowerCase(p) == ToLowerCase(q)
    ensures TermsOf(Tokens([p, q])) == [ToLowerCase(p)]
  {
    var tokens := Tokens([p, q]);
    assert tokens[0] == Term(ToLowerCase(p)) == tokens[1];
    SameTokenTwice(tokens);
  }
}
