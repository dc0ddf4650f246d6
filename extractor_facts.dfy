/**
 * Properties of the walk that `extract_filled_values` performs, proved
 * about the functions that specify it in module Extractor.
 */
module ExtractorFacts {
  import opened Wrappers
  import opened PyStr
  import opened XmlTree
  import opened OrderedDict
  import opened Heuristic
  import opened Extractor

  // ---------------------------------------------------------------------
  // Field names
  // ---------------------------------------------------------------------

  /** A path in which none of the three prefixes occurs is its own field
      name. */
  lemma CleanFieldNameUnchanged(path: string)
    requires !Contains(path, "form1.")
    requires !Contains(path, "IMM5257E_1.")
    requires !Contains(path, "IMM5710E_1.")
    ensures CleanFieldName(path) == path
  {
    RemoveAllAbsent(path, "form1.");
    RemoveAllAbsent(path, "IMM5257E_1.");
    RemoveAllAbsent(path, "IMM5710E_1.");
  }

  /** Every prefix ends with a dot, so a name without a dot (the key of a
      child of the form root) is never changed. */
  lemma CleanFieldNameWithoutDot(path: string)
    requires '.' !in path
    ensures CleanFieldName(path) == path
  {
    AbsentCharNoOccurrence(path, "form1.", 5);
    AbsentCharNoOccurrence(path, "IMM5257E_1.", 10);
    AbsentCharNoOccurrence(path, "IMM5710E_1.", 10);
    CleanFieldNameUnchanged(path);
  }

  /** A leading `form1.` is dropped, and the rest is cleaned as usual. */
  lemma CleanFieldNameDropsLeadingForm1(rest: string)
    ensures CleanFieldName("form1." + rest) == CleanFieldName(rest)
  {
    RemoveAllLeading("form1.", rest);
  }

  /** A path that starts with `form1.` and is otherwise free of the three
      prefixes is recorded without it: `form1.applicant.firstName` becomes
      `applicant.firstName`. */
  lemma CleanFieldNameOfForm1Path(rest: string)
    requires !Contains(rest, "form1.")
    requires !Contains(rest, "IMM5257E_1.")
    requires !Contains(rest, "IMM5710E_1.")
    ensures CleanFieldName("form1." + rest) == rest
  {
    CleanFieldNameDropsLeadingForm1(rest);
    CleanFieldNameUnchanged(rest);
  }

  /** An occurrence in the middle of a path is removed too, not only one
      at the front: `Page1.form1.name` becomes `Page1.name`. */
  lemma CleanFieldNameDropsInnerForm1(front: string, back: string)
    requires 'f' !in front && 'I' !in front
    requires 'f' !in back && 'I' !in back
    ensures CleanFieldName(front + "form1." + back) == front + back
  {
    var pat := "form1.";
    var rest := pat + back;
    var s := front + rest;
    assert front + "form1." + back == s;
    forall i | 0 <= i < |front| ensures !OccursAt(s, pat, i) {
      assert s[i] == front[i];
      if i + |pat| <= |s| {
        assert s[i..i + |pat|][0] == s[i];
      }
    }
    RemoveAllKeepsCleanPrefix(front, rest, pat);
    RemoveAllLeading(pat, back);
    AbsentCharNoOccurrence(back, pat, 0);
    RemoveAllAbsent(back, pat);
    var cleaned := front + back;
    assert 'I' !in cleaned;
    AbsentCharNoOccurrence(cleaned, "IMM5257E_1.", 0);
    AbsentCharNoOccurrence(cleaned, "IMM5710E_1.", 0);
    RemoveAllAbsent(cleaned, "IMM5257E_1.");
    RemoveAllAbsent(cleaned, "IMM5710E_1.");
  }

  // ---------------------------------------------------------------------
  // The walk as a concatenation over a list of children
  // ---------------------------------------------------------------------

  /** The entries the walk's loop records for the children `cs`, in order:
      the proofs' view of `WalkFrom`, over a slice of children rather than
      an index into them (`WalkFromIsVisitAll`). */
  function VisitAll(cs: seq<Element>, prefix: string): seq<Pair>
    decreases |cs|
  {
    if cs == [] then [] else Visit(cs[0], prefix) + VisitAll(cs[1..], prefix)
  }

  /** Visiting two runs of children one after the other records the
      entries of the first run, then those of the second. */
  lemma {:induction false} VisitAllAppend(a: seq<Element>, b: seq<Element>, prefix: string)
    ensures VisitAll(a + b, prefix) == VisitAll(a, prefix) + VisitAll(b, prefix)
    decreases |a|
  {
    if a == [] {
      assert a + b == b;
    } else {
      assert (a + b)[1..] == a[1..] + b;
      VisitAllAppend(a[1..], b, prefix);
    }
  }

  /** The walk of an element depends on its children alone, visited in
      order. */
  lemma WalkIsVisitAll(e: Element, prefix: string)
    ensures Walk(e, prefix) == VisitAll(e.children, prefix)
  {
    WalkFromIsVisitAll(e, 0, prefix);
    assert e.children[0..] == e.children;
  }

  lemma {:induction false} WalkFromIsVisitAll(e: Element, i: nat, prefix: string)
    requires i <= |e.children|
    ensures WalkFrom(e, i, prefix) == VisitAll(e.children[i..], prefix)
    decreases |e.children| - i
  {
    if i < |e.children| {
      WalkFromIsVisitAll(e, i + 1, prefix);
      assert e.children[i..][1..] == e.children[i + 1..];
    }
  }

  /** Structural wrappers are transparent: replacing a `datasets`/`data`
      child by its own children, in its place, records exactly the same
      entries, and the tag and text of the walked element play no part. */
  lemma StructuralChildIsSpliced(tag: string, text: Option<string>, before: seq<Element>,
                                 wrapper: Element, after: seq<Element>,
                                 tag': string, text': Option<string>, prefix: string)
    requires IsStructural(LocalName(wrapper.tag))
    ensures Walk(Element(tag, text, before + [wrapper] + after), prefix)
         == Walk(Element(tag', text', before + wrapper.children + after), prefix)
  {
    WalkIsVisitAll(Element(tag, text, before + [wrapper] + after), prefix);
    WalkIsVisitAll(Element(tag', text', before + wrapper.children + after), prefix);
    WalkIsVisitAll(wrapper, prefix);
    VisitAllAppend(before + [wrapper], after, prefix);
    VisitAllAppend(before, [wrapper], prefix);
    assert VisitAll([wrapper], prefix) == Visit(wrapper, prefix);
    VisitAllAppend(before + wrapper.children, after, prefix);
    VisitAllAppend(before, wrapper.children, prefix);
  }

  // ---------------------------------------------------------------------
  // Keys of the form root's own fields
  // ---------------------------------------------------------------------

  /** An entry of one child's turn appears in the walk of its parent. */
  lemma VisitInWalk(e: Element, i: nat, prefix: string, p: Pair)
    requires i < |e.children|
    requires p in Visit(e.children[i], prefix)
    ensures p in Walk(e, prefix)
  {
    var cs := e.children;
    WalkIsVisitAll(e, prefix);
    assert cs == cs[..i] + cs[i..];
    VisitAllAppend(cs[..i], cs[i..], prefix);
    assert cs[i..][1..] == cs[i + 1..];
    assert VisitAll(cs[i..], prefix) == Visit(cs[i], prefix) + VisitAll(cs[i + 1..], prefix);
  }

  /** A direct, non-structural child of the walked element whose text is
      accepted is recorded under its local tag name, with the prefixes
      removed; when that name has no dot it is the local tag name itself. */
  lemma TopLevelFieldRecorded(e: Element, i: nat, v: string)
    requires i < |e.children|
    requires !IsStructural(LocalName(e.children[i].tag))
    requires AcceptedValue(e.children[i].text) == Some(v)
    ensures Pair(CleanFieldName(LocalName(e.children[i].tag)), v) in Walk(e, "")
    ensures '.' !in LocalName(e.children[i].tag) ==> Pair(LocalName(e.children[i].tag), v) in Walk(e, "")
  {
    var tag := LocalName(e.children[i].tag);
    var own := Pair(CleanFieldName(tag), v);
    assert Visit(e.children[i], "") == FieldVisit(e.children[i], "");
    assert FieldVisit(e.children[i], "")[0] == own;
    VisitInWalk(e, i, "", own);
    if '.' !in tag {
      CleanFieldNameWithoutDot(tag);
    }
  }

  // ---------------------------------------------------------------------
  // Every recorded value is the text of some field element
  // ---------------------------------------------------------------------

  /** `x` is an element the walk records `v` for: it is not a structural
      wrapper and `v` is its accepted text. */
  predicate RecordsText(x: Element, v: string) {
    !IsStructural(LocalName(x.tag)) && AcceptedValue(x.text) == Some(v)
  }

  /** Some element of `xs` records `v`. */
  predicate RecordedIn(v: string, xs: seq<Element>) {
    exists k :: 0 <= k < |xs| && RecordsText(xs[k], v)
  }

  lemma RecordedInAppend(v: string, a: seq<Element>, b: seq<Element>)
    ensures RecordedIn(v, a + b) <==> RecordedIn(v, a) || RecordedIn(v, b)
  {
    if RecordedIn(v, a) {
      var k :| 0 <= k < |a| && RecordsText(a[k], v);
      assert (a + b)[k] == a[k];
    }
    if RecordedIn(v, b) {
      var k :| 0 <= k < |b| && RecordsText(b[k], v);
      assert (a + b)[|a| + k] == b[k];
    }
    if RecordedIn(v, a + b) {
      var k :| 0 <= k < |a + b| && RecordsText((a + b)[k], v);
      if k < |a| {
        assert (a + b)[k] == a[k];
      } else {
        assert (a + b)[k] == b[k - |a|];
      }
    }
  }

  /** Every value the walk of `e` records is the accepted text of a field
      element below `e`. */
  lemma {:induction false} WalkValueRecorded(e: Element, prefix: string, p: Pair)
    requires p in Walk(e, prefix)
    ensures RecordedIn(p.value, Descendants(e))
    decreases e, 1
  {
    WalkFromValueRecorded(e, 0, prefix, p);
  }

  lemma {:induction false} WalkFromValueRecorded(e: Element, i: nat, prefix: string, p: Pair)
    requires p in WalkFrom(e, i, prefix)
    ensures RecordedIn(p.value, DescendantsFrom(e, i))
    decreases e, 0, |e.children| - i
  {
    var c := e.children[i];
    var here := [c] + Descendants(c);
    var later := DescendantsFrom(e, i + 1);
    assert DescendantsFrom(e, i) == here + later;
    if p in Visit(c, prefix) {
      VisitValueRecorded(c, prefix, p);
    } else {
      WalkFromValueRecorded(e, i + 1, prefix, p);
    }
    RecordedInAppend(p.value, here, later);
  }

  lemma {:induction false} VisitValueRecorded(c: Element, prefix: string, p: Pair)
    requires p in Visit(c, prefix)
    ensures RecordedIn(p.value, [c] + Descendants(c))
    decreases c, 2
  {
    if IsStructural(LocalName(c.tag)) {
      WalkValueRecorded(c, prefix, p);
      RecordedInAppend(p.value, [c], Descendants(c));
    } else {
      var name := FieldName(c, prefix);
      var own := OwnEntries(c, prefix);
      var below := if |c.children| > 0 then Walk(c, name) else [];
      assert Visit(c, prefix) == own + below;
      if p in own {
        assert ([c] + Descendants(c))[0] == c;
      } else {
        WalkValueRecorded(c, name, p);
        RecordedInAppend(p.value, [c], Descendants(c));
      }
    }
  }

  /** Every value `extract_filled_values` returns is the non-empty
      stripped text of an element below the form root, that text passed
      the real-data test, and the element is a field rather than a
      structural wrapper. */
  lemma FilledValuesAreRecordedTexts(root: Element)
    ensures var d := FilledValues(root);
            var fields := Descendants(FormRoot(DataSection(root)));
            forall k :: k in d.values ==>
              d.values[k] != [] && IsStripped(d.values[k]) && IsRealData(d.values[k])
              && RecordedIn(d.values[k], fields)
  {
    var formRoot := FormRoot(DataSection(root));
    var entries := Walk(formRoot, "");
    var d := FilledValues(root);
    forall k | k in d.values
      ensures d.values[k] != [] && IsStripped(d.values[k]) && IsRealData(d.values[k])
              && RecordedIn(d.values[k], Descendants(formRoot))
    {
      StoredFromSomePair(entries, k);
      var j :| 0 <= j < |entries| && entries[j] == Pair(k, d.values[k]);
      WalkValueRecorded(formRoot, "", entries[j]);
      var fields := Descendants(formRoot);
      var x :| 0 <= x < |fields| && RecordsText(fields[x], d.values[k]);
      AcceptedValueSpec(fields[x].text);
    }
  }

  // ---------------------------------------------------------------------
  // Every field element with an accepted text is written
  // ---------------------------------------------------------------------

  /** Some write of `ps` carries the value `v`. */
  predicate WritesValue(ps: seq<Pair>, v: string) {
    exists j :: 0 <= j < |ps| && ps[j].value == v
  }

  lemma WritesValueAppend(v: string, a: seq<Pair>, b: seq<Pair>)
    ensures WritesValue(a, v) || WritesValue(b, v) ==> WritesValue(a + b, v)
  {
    if WritesValue(a, v) {
      var j :| 0 <= j < |a| && a[j].value == v;
      assert (a + b)[j] == a[j];
    } else if WritesValue(b, v) {
      var j :| 0 <= j < |b| && b[j].value == v;
      assert (a + b)[|a| + j] == b[j];
    }
  }

  /** The converse of `WalkValueRecorded`: the walk writes the accepted text
      of every field element below `e`, at any depth, whether or not the
      elements between them have accepted texts of their own. */
  lemma {:induction false} WalkWritesField(e: Element, prefix: string, v: string)
    requires RecordedIn(v, Descendants(e))
    ensures WritesValue(Walk(e, prefix), v)
    decreases e, 1
  {
    WalkFromWritesField(e, 0, prefix, v);
  }

  lemma {:induction false} WalkFromWritesField(e: Element, i: nat, prefix: string, v: string)
    requires RecordedIn(v, DescendantsFrom(e, i))
    ensures WritesValue(WalkFrom(e, i, prefix), v)
    decreases e, 0, |e.children| - i
  {
    var c := e.children[i];
    var here := [c] + Descendants(c);
    var later := DescendantsFrom(e, i + 1);
    assert DescendantsFrom(e, i) == here + later;
    RecordedInAppend(v, here, later);
    assert WalkFrom(e, i, prefix) == Visit(c, prefix) + WalkFrom(e, i + 1, prefix);
    if RecordedIn(v, here) {
      VisitWritesField(c, prefix, v);
    } else {
      WalkFromWritesField(e, i + 1, prefix, v);
    }
    WritesValueAppend(v, Visit(c, prefix), WalkFrom(e, i + 1, prefix));
  }

  lemma {:induction false} VisitWritesField(c: Element, prefix: string, v: string)
    requires RecordedIn(v, [c] + Descendants(c))
    ensures WritesValue(Visit(c, prefix), v)
    decreases c, 2
  {
    RecordedInAppend(v, [c], Descendants(c));
    if IsStructural(LocalName(c.tag)) {
      assert !RecordsText(([c] + Descendants(c))[0], v);
      WalkWritesField(c, prefix, v);
    } else {
      var name := FieldName(c, prefix);
      var own := OwnEntries(c, prefix);
      var below := if |c.children| > 0 then Walk(c, name) else [];
      assert Visit(c, prefix) == own + below;
      if RecordsText(c, v) {
        assert own[0] == Pair(name, v);
      } else {
        assert !RecordsText(([c] + Descendants(c))[0], v);
        assert |Descendants(c)| > 0;
        WalkWritesField(c, name, v);
      }
      WritesValueAppend(v, own, below);
    }
  }

  /** No write after position `j` of `ps` names the key written at `j`. */
  predicate LastWriteOfKey(ps: seq<Pair>, j: nat)
    requires j < |ps|
  {
    forall l :: j < l < |ps| ==> ps[l].key != ps[j].key
  }

  /** Each write ends up under its key, and that key holds the write's
      value unless a later write to the same key replaces it. */
  lemma WrittenValueStored(ps: seq<Pair>, j: nat)
    requires j < |ps|
    ensures ps[j].key in PutAll(Empty, ps).values
    ensures LastWriteOfKey(ps, j) ==> PutAll(Empty, ps).values[ps[j].key] == ps[j].value
  {
    StoredFromSomePair(ps, ps[j].key);
    assert KeysOf(ps)[j] == ps[j].key;
    if LastWriteOfKey(ps, j) {
      LastWriteWins(Empty, ps, j);
    }
  }

  // ---------------------------------------------------------------------
  // One write per field element, in document order
  // ---------------------------------------------------------------------

  /** The values of the writes `ps`, in order. */
  function WrittenValues(ps: seq<Pair>): (vs: seq<string>)
    ensures |vs| == |ps|
    ensures forall i :: 0 <= i < |ps| ==> vs[i] == ps[i].value
  {
    seq(|ps|, i requires 0 <= i < |ps| => ps[i].value)
  }

  lemma WrittenValuesAppend(a: seq<Pair>, b: seq<Pair>)
    ensures WrittenValues(a + b) == WrittenValues(a) + WrittenValues(b)
  {
  }

  /** The accepted text of `x` when it is a field element, or nothing. */
  function FieldTexts(x: Element): seq<string> {
    if !IsStructural(LocalName(x.tag)) && AcceptedValue(x.text).Some?
    then [AcceptedValue(x.text).value] else []
  }

  /** The accepted texts of the field elements among `xs`, in order: one
      per non-structural element whose text is accepted. */
  function AcceptedTexts(xs: seq<Element>): seq<string>
    decreases |xs|
  {
    if xs == [] then [] else FieldTexts(xs[0]) + AcceptedTexts(xs[1..])
  }

  lemma {:induction false} AcceptedTextsAppend(a: seq<Element>, b: seq<Element>)
    ensures AcceptedTexts(a + b) == AcceptedTexts(a) + AcceptedTexts(b)
    decreases |a|
  {
    if a == [] {
      assert a + b == b;
    } else {
      assert (a + b)[0] == a[0];
      assert (a + b)[1..] == a[1..] + b;
      AcceptedTextsAppend(a[1..], b);
    }
  }

  /** The walk writes exactly one entry per field element below `e` whose
      text is accepted, in document order, carrying that element's text,
      and nothing else. */
  lemma {:induction false} WalkWritesAcceptedTexts(e: Element, prefix: string)
    ensures WrittenValues(Walk(e, prefix)) == AcceptedTexts(Descendants(e))
    decreases e, 1
  {
    WalkFromWritesAcceptedTexts(e, 0, prefix);
  }

  lemma {:induction false} WalkFromWritesAcceptedTexts(e: Element, i: nat, prefix: string)
    ensures WrittenValues(WalkFrom(e, i, prefix)) == AcceptedTexts(DescendantsFrom(e, i))
    decreases e, 0, |e.children| - i
  {
    if i < |e.children| {
      var c := e.children[i];
      var here := [c] + Descendants(c);
      var later := DescendantsFrom(e, i + 1);
      assert DescendantsFrom(e, i) == here + later;
      AcceptedTextsAppend(here, later);
      WrittenValuesAppend(Visit(c, prefix), WalkFrom(e, i + 1, prefix));
      VisitWritesAcceptedTexts(c, prefix);
      WalkFromWritesAcceptedTexts(e, i + 1, prefix);
    }
  }

  lemma {:induction false} VisitWritesAcceptedTexts(c: Element, prefix: string)
    ensures WrittenValues(Visit(c, prefix)) == AcceptedTexts([c] + Descendants(c))
    decreases c, 3
  {
    AcceptedTextsAppend([c], Descendants(c));
    assert AcceptedTexts([c]) == FieldTexts(c) by { assert [c][1..] == []; }
    if IsStructural(LocalName(c.tag)) {
      WalkWritesAcceptedTexts(c, prefix);
    } else {
      FieldVisitWritesAcceptedTexts(c, prefix);
    }
  }

  lemma {:induction false} FieldVisitWritesAcceptedTexts(c: Element, prefix: string)
    requires !IsStructural(LocalName(c.tag))
    ensures WrittenValues(FieldVisit(c, prefix)) == FieldTexts(c) + AcceptedTexts(Descendants(c))
    decreases c, 2
  {
    var name := FieldName(c, prefix);
    var own := OwnEntries(c, prefix);
    var below := if |c.children| > 0 then Walk(c, name) else [];
    WrittenValuesAppend(own, below);
    assert WrittenValues(own) == FieldTexts(c);
    if |c.children| > 0 {
      WalkWritesAcceptedTexts(c, name);
    } else {
      assert Descendants(c) == [];
    }
  }

  /** An earlier field element has an earlier write: the number of field
      elements before a field element grows with its position. */
  lemma LaterFieldLaterWrite(xs: seq<Element>, m1: nat, m2: nat, v: string)
    requires m1 < m2 <= |xs|
    requires RecordsText(xs[m1], v)
    ensures |AcceptedTexts(xs[..m1])| < |AcceptedTexts(xs[..m2])|
  {
    assert xs[..m2] == xs[..m1] + xs[m1..m2];
    AcceptedTextsAppend(xs[..m1], xs[m1..m2]);
    assert xs[m1..m2] == [xs[m1]] + xs[m1 + 1..m2];
    AcceptedTextsAppend([xs[m1]], xs[m1 + 1..m2]);
    assert [xs[m1]][1..] == [];
  }

  /** The field element at position `m` of the document-order list `xs`
      has position `|AcceptedTexts(xs[..m])|` in `AcceptedTexts(xs)`. */
  lemma AcceptedTextAt(xs: seq<Element>, m: nat, v: string)
    requires m < |xs|
    requires RecordsText(xs[m], v)
    ensures |AcceptedTexts(xs[..m])| < |AcceptedTexts(xs)|
    ensures AcceptedTexts(xs)[|AcceptedTexts(xs[..m])|] == v
  {
    assert xs == xs[..m] + ([xs[m]] + xs[m + 1..]);
    AcceptedTextsAppend(xs[..m], [xs[m]] + xs[m + 1..]);
    AcceptedTextsAppend([xs[m]], xs[m + 1..]);
    assert [xs[m]][1..] == [];
  }

  /** Every field element below the form root whose text is accepted has
      a write of its own: the one whose position is the number of field
      elements before it in document order, so distinct elements (even
      with equal texts) have distinct writes, and a later element a later
      one (`LaterFieldLaterWrite`). That write's key is in the result, and
      holds the element's value unless a later write to the same key
      replaces it. */
  lemma EveryFieldIsStored(root: Element, m: nat, v: string)
    requires m < |Descendants(FormRoot(DataSection(root)))|
    requires RecordsText(Descendants(FormRoot(DataSection(root)))[m], v)
    ensures var fields := Descendants(FormRoot(DataSection(root)));
            var entries := Walk(FormRoot(DataSection(root)), "");
            var j := |AcceptedTexts(fields[..m])|;
            var d := FilledValues(root);
            j < |entries| && entries[j].value == v && entries[j].key in d.values
            && (LastWriteOfKey(entries, j) ==> d.values[entries[j].key] == v)
  {
    var formRoot := FormRoot(DataSection(root));
    var fields := Descendants(formRoot);
    var entries := Walk(formRoot, "");
    var j := |AcceptedTexts(fields[..m])|;
    WalkWritesAcceptedTexts(formRoot, "");
    AcceptedTextAt(fields, m, v);
    assert WrittenValues(entries)[j] == v;
    WrittenValueStored(entries, j);
    assert FilledValues(root) == PutAll(Empty, entries);
  }

  /** A field two levels down is recorded under the path through its
      parent field: the parent's name (cleaned when the parent's own value
      is recorded), a dot, the child's local tag, with the prefixes then
      removed. */
  lemma NestedFieldRecorded(e: Element, i: nat, k: nat, prefix: string, v: string)
    requires i < |e.children| && k < |e.children[i].children|
    requires !IsStructural(LocalName(e.children[i].tag))
    requires !IsStructural(LocalName(e.children[i].children[k].tag))
    requires AcceptedValue(e.children[i].children[k].text) == Some(v)
    ensures Pair(CleanFieldName(FieldPath(FieldName(e.children[i], prefix),
                                          LocalName(e.children[i].children[k].tag))), v)
            in Walk(e, prefix)
  {
    var x := e.children[i];
    var y := x.children[k];
    var name := FieldName(x, prefix);
    var p := Pair(CleanFieldName(FieldPath(name, LocalName(y.tag))), v);
    assert Visit(y, name) == FieldVisit(y, name);
    assert FieldVisit(y, name)[0] == p;
    VisitInWalk(x, k, name, p);
    assert Visit(x, prefix) == FieldVisit(x, prefix);
    assert FieldVisit(x, prefix) == OwnEntries(x, prefix) + Walk(x, name);
    VisitInWalk(e, i, prefix, p);
  }
}
