/**
 * The parsed XFA dataset tree as ElementTree presents it: each element has
 * a tag (a namespaced tag reads `{uri}local`), its direct text (absent or a
 * string) and its child elements in document order.
 */
module XmlTree {
  import opened Wrappers
  import opened PyStr

  datatype Element = Element(tag: string, text: Option<string>, children: seq<Element>)

  /** The local part of a tag: the text after its last `}`, or the whole tag
      when it has none. */
  function LocalName(tag: string): string
    decreases |tag|
  {
    if tag == [] || tag[|tag| - 1] == '}' then []
    else LocalName(tag[..|tag| - 1]) + [tag[|tag| - 1]]
  }

  /** `r` is the text after the last `}` of `tag`: a suffix without `}` that
      is either the whole tag or preceded by a `}`. */
  predicate IsAfterLastBrace(tag: string, r: string) {
    '}' !in r && |r| <= |tag| && r == tag[|tag| - |r|..]
    && (|r| < |tag| ==> tag[|tag| - |r| - 1] == '}')
  }

  lemma {:induction false} LocalNameIsAfterLastBrace(tag: string)
    ensures IsAfterLastBrace(tag, LocalName(tag))
    decreases |tag|
  {
    if tag != [] && tag[|tag| - 1] != '}' {
      var init := tag[..|tag| - 1];
      LocalNameIsAfterLastBrace(init);
      var r := LocalName(init);
      assert LocalName(tag) == r + [tag[|tag| - 1]];
      assert tag[|tag| - |r| - 1..] == init[|init| - |r|..] + [tag[|tag| - 1]];
      if |r| < |init| {
        assert tag[|tag| - |r| - 2] == init[|init| - |r| - 1];
      }
    }
  }

  /** Only one suffix is the text after the last `}`. */
  lemma AfterLastBraceUnique(tag: string, r1: string, r2: string)
    requires IsAfterLastBrace(tag, r1) && IsAfterLastBrace(tag, r2)
    ensures r1 == r2
  {
    if |r1| < |r2| {
      assert false;
    } else if |r2| < |r1| {
      assert false;
    }
  }

  /** The last piece of `tag.split('}')` is the text after the last `}`. */
  lemma LastPieceFacts(tag: string)
    requires '}' in tag
    ensures IsAfterLastBrace(tag, Last(Split(tag, "}")))
    ensures |Last(Split(tag, "}"))| < |tag|
  {
    var parts := Split(tag, "}");
    SplitJoin(tag, "}");
    SplitPiecesFree(tag, '}');
    assert |parts| >= 2;
    JoinLast(parts, "}");
    var r := Last(parts);
    var front := Join(parts[..|parts| - 1], "}");
    assert tag == front + "}" + r;
    assert tag[|tag| - |r|..] == r;
    assert tag[|tag| - |r| - 1] == '}';
  }

  /** The local name is what `tag.split('}')[-1] if '}' in tag else tag`
      computes. */
  lemma LocalNameIsSourceForm(tag: string)
    ensures LocalName(tag) == if '}' in tag then Last(Split(tag, "}")) else tag
  {
    LocalNameIsAfterLastBrace(tag);
    if '}' in tag {
      LastPieceFacts(tag);
      AfterLastBraceUnique(tag, LocalName(tag), Last(Split(tag, "}")));
    } else {
      AfterLastBraceUnique(tag, LocalName(tag), tag);
    }
  }

  /** The guard `'}' in tag` changes nothing: the split alone gives the
      same name, since a tag without `}` splits into itself. */
  lemma LocalNameIsLastPiece(tag: string)
    ensures LocalName(tag) == Last(Split(tag, "}"))
  {
    LocalNameIsSourceForm(tag);
    if '}' !in tag {
      AbsentCharNoOccurrence(tag, "}", 0);
      SplitAbsent(tag, "}");
    }
  }

  /** Every element strictly below `e`, in document order: what `e.iter()`
      yields after `e` itself. */
  function Descendants(e: Element): seq<Element>
    decreases e, 1
  {
    DescendantsFrom(e, 0)
  }

  /** The descendants of `e` that sit under its children `i`, `i + 1`, ...,
      each child followed by its own descendants. */
  function DescendantsFrom(e: Element, i: nat): seq<Element>
    decreases e, 0, |e.children| - i
  {
    if i >= |e.children| then []
    else [e.children[i]] + Descendants(e.children[i]) + DescendantsFrom(e, i + 1)
  }

  /** The first element of `xs` whose tag is exactly `tag`. */
  function FirstTagged(xs: seq<Element>, tag: string): (r: Option<Element>)
    ensures r.None? <==> forall k :: 0 <= k < |xs| ==> xs[k].tag != tag
    ensures r.Some? ==> exists k :: 0 <= k < |xs| && xs[k] == r.value && xs[k].tag == tag
                                   && forall j :: 0 <= j < k ==> xs[j].tag != tag
  {
    if xs == [] then None
    else if xs[0].tag == tag then Some(xs[0])
    else
      var r := FirstTagged(xs[1..], tag);
      assert forall k :: 1 <= k < |xs| ==> xs[k] == xs[1..][k - 1];
      r
  }

  /** ElementTree's `e.find('.//' + tag)`: searches the children in order,
      each child before its own descendants and those before the next child. */
  function FindDescendant(e: Element, tag: string): Option<Element>
    decreases e, 1
  {
    FindFrom(e, 0, tag)
  }

  function FindFrom(e: Element, i: nat, tag: string): Option<Element>
    decreases e, 0, |e.children| - i
  {
    if i >= |e.children| then None
    else if e.children[i].tag == tag then Some(e.children[i])
    else
      match FindDescendant(e.children[i], tag)
      case Some(d) => Some(d)
      case None => FindFrom(e, i + 1, tag)
  }

  /** The first match of a concatenation is the first match of its front
      part, if there is one, and otherwise that of its back part. */
  lemma {:induction false} FirstTaggedAppend(a: seq<Element>, b: seq<Element>, tag: string)
    ensures FirstTagged(a + b, tag) == if FirstTagged(a, tag).Some? then FirstTagged(a, tag) else FirstTagged(b, tag)
    decreases |a|
  {
    if a != [] {
      assert (a + b)[0] == a[0];
      if a[0].tag != tag {
        assert (a + b)[1..] == a[1..] + b;
        FirstTaggedAppend(a[1..], b, tag);
      }
    } else {
      assert a + b == b;
    }
  }

  /** `find('.//' + tag)` returns the first descendant in document order
      with that exact tag, and nothing when there is none. */
  lemma {:induction false} FindDescendantIsFirst(e: Element, tag: string)
    ensures FindDescendant(e, tag) == FirstTagged(Descendants(e), tag)
    decreases e, 1
  {
    FindFromIsFirst(e, 0, tag);
  }

  lemma {:induction false} FindFromIsFirst(e: Element, i: nat, tag: string)
    ensures FindFrom(e, i, tag) == FirstTagged(DescendantsFrom(e, i), tag)
    decreases e, 0, |e.children| - i
  {
    if i < |e.children| {
      var c := e.children[i];
      var below := Descendants(c);
      var later := DescendantsFrom(e, i + 1);
      assert DescendantsFrom(e, i) == [c] + (below + later);
      FirstTaggedAppend([c], below + later, tag);
      FindDescendantIsFirst(c, tag);
      FindFromIsFirst(e, i + 1, tag);
      FirstTaggedAppend(below, later, tag);
      assert FirstTagged([c], tag) == if c.tag == tag then Some(c) else None;
    }
  }
}
