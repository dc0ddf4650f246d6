/**
 * `extract_filled_values`: finds the data section and the form root of a
 * parsed XFA dataset tree, then walks the form root's descendants, building
 * dotted field paths and recording each value that passes the real-data
 * test under its path, with the known form-root prefixes removed.
 */
module Extractor {
  import opened Wrappers
  import opened PyStr
  import opened XmlTree
  import opened OrderedDict
  import opened Heuristic

  /** The tag ElementTree gives `xfa:data` once the XFA data namespace is
      expanded. */
  const XfaDataTag: string := "{http://www.xfa.org/schema/xfa-data/1.0/}data"

  /** Local tags the walk passes through without adding a path segment. The
      first two are kept as the list has them, although a local name never
      has an `xfa:` prefix once ElementTree has expanded namespaces. */
  const StructuralTags: seq<string> := ["xfa:datasets", "xfa:data", "datasets", "data"]

  predicate IsStructural(tag: string) {
    tag in StructuralTags
  }

  /** A local tag that names a form root: `form...` or `IMM...`. */
  predicate IsFormRootTag(tag: string) {
    StartsWith(tag, "form") || StartsWith(tag, "IMM")
  }

  /** The data section: the `xfa:data` element if there is one, else a
      plain `data` element, else the root itself. */
  function DataSection(root: Element): Element {
    match FindDescendant(root, XfaDataTag)
    case Some(d) => d
    case None =>
      match FindDescendant(root, "data")
      case Some(d) => d
      case None => root
  }

  /** The data section is the first element below the root, in document
      order, tagged `xfa:data`; failing that the first tagged plain `data`;
      failing both, the root itself. */
  lemma DataSectionIsFirstMatch(root: Element)
    ensures var ds := Descendants(root); var r := DataSection(root);
            (exists k :: 0 <= k < |ds| && ds[k].tag == XfaDataTag) ==>
              exists k :: 0 <= k < |ds| && ds[k] == r && r.tag == XfaDataTag
                          && forall j :: 0 <= j < k ==> ds[j].tag != XfaDataTag
    ensures var ds := Descendants(root); var r := DataSection(root);
            (forall k :: 0 <= k < |ds| ==> ds[k].tag != XfaDataTag)
            && (exists k :: 0 <= k < |ds| && ds[k].tag == "data") ==>
              exists k :: 0 <= k < |ds| && ds[k] == r && r.tag == "data"
                          && forall j :: 0 <= j < k ==> ds[j].tag != "data"
    ensures var ds := Descendants(root);
            (forall k :: 0 <= k < |ds| ==> ds[k].tag != XfaDataTag && ds[k].tag != "data") ==>
              DataSection(root) == root
  {
    FindDescendantIsFirst(root, XfaDataTag);
    FindDescendantIsFirst(root, "data");
  }

  /** The element's local tag names a form root. */
  predicate NamesFormRoot(e: Element) {
    IsFormRootTag(LocalName(e.tag))
  }

  /** The position of the first child that names a form root, if any. */
  function FormRootIndex(children: seq<Element>): (r: Option<nat>)
    ensures r.None? <==> forall k :: 0 <= k < |children| ==> !NamesFormRoot(children[k])
    ensures r.Some? ==> r.value < |children| && NamesFormRoot(children[r.value])
                        && forall j :: 0 <= j < r.value ==> !NamesFormRoot(children[j])
  {
    FormRootIndexFrom(children, 0)
  }

  function FormRootIndexFrom(children: seq<Element>, i: nat): (r: Option<nat>)
    requires i <= |children|
    requires forall j :: 0 <= j < i ==> !NamesFormRoot(children[j])
    ensures r.None? <==> forall k :: 0 <= k < |children| ==> !NamesFormRoot(children[k])
    ensures r.Some? ==> r.value < |children| && NamesFormRoot(children[r.value])
                        && forall j :: 0 <= j < r.value ==> !NamesFormRoot(children[j])
    decreases |children| - i
  {
    if i == |children| then None
    else if NamesFormRoot(children[i]) then Some(i)
    else FormRootIndexFrom(children, i + 1)
  }

  /** The form root: the first child of the data section whose local tag
      names a form root, else the data section itself. */
  function FormRoot(data: Element): Element {
    match FormRootIndex(data.children)
    case Some(k) => data.children[k]
    case None => data
  }

  /** The loop that looks for the form root, stopping at the first match. */
  method FindFormRoot(data: Element) returns (formRoot: Element)
    ensures formRoot == FormRoot(data)
  {
    var found: Option<Element> := None;
    var i := 0;
    while i < |data.children|
      invariant 0 <= i <= |data.children|
      invariant forall j :: 0 <= j < i ==> !NamesFormRoot(data.children[j])
      invariant found.None?
    {
      var child := data.children[i];
      var tag := LocalName(child.tag);
      if StartsWith(tag, "form") || StartsWith(tag, "IMM") {
        found := Some(child);
        assert FormRootIndex(data.children) == Some(i);
        break;
      }
      i := i + 1;
    }
    if found.Some? {
      formRoot := found.value;
    } else {
      formRoot := data;
    }
  }

  /** `f"{prefix}.{tag}" if prefix else tag`. */
  function FieldPath(prefix: string, tag: string): string {
    if prefix != [] then prefix + "." + tag else tag
  }

  /** The field name a path is recorded under: every occurrence of
      `form1.`, then of `IMM5257E_1.`, then of `IMM5710E_1.`, removed. */
  function CleanFieldName(path: string): string {
    RemoveAll(RemoveAll(RemoveAll(path, "form1."), "IMM5257E_1."), "IMM5710E_1.")
  }

  /** The value an element contributes: its stripped direct text, when that
      is non-empty and passes the real-data test. */
  function AcceptedValue(text: Option<string>): Option<string> {
    if text.Some? && Strip(text.value) != [] then
      var value := Strip(text.value);
      if IsRealData(value) then Some(value) else None
    else
      None
  }

  /** A recorded value is the stripped text, non-empty, without whitespace
      at either end and real data; an absent, empty or all-whitespace text
      records nothing. */
  lemma AcceptedValueSpec(text: Option<string>)
    ensures var r := AcceptedValue(text);
            (r.Some? ==> text.Some? && r.value == Strip(text.value))
            && (r.Some? ==> r.value != [] && IsStripped(r.value) && IsRealData(r.value))
            && (text.None? || AllSpace(text.value) ==> r.None?)
            && (text.Some? && !AllSpace(text.value) && IsRealData(Strip(text.value)) ==> r.Some?)
  {
    if text.Some? {
      StripSpec(text.value);
    }
  }

  /** The entries `extract_fields(e, prefix)` records, in the order it
      records them. */
  function Walk(e: Element, prefix: string): seq<Pair>
    decreases e, 1
  {
    WalkFrom(e, 0, prefix)
  }

  /** The entries recorded for the children `i`, `i + 1`, ... of `e`. */
  function WalkFrom(e: Element, i: nat, prefix: string): seq<Pair>
    decreases e, 0, |e.children| - i
  {
    if i >= |e.children| then []
    else Visit(e.children[i], prefix) + WalkFrom(e, i + 1, prefix)
  }

  /** The name a non-structural child is recorded and walked under: its
      field path, with the prefixes removed only when its value is
      recorded. */
  function FieldName(child: Element, prefix: string): string {
    var path := FieldPath(prefix, LocalName(child.tag));
    if AcceptedValue(child.text).Some? then CleanFieldName(path) else path
  }

  /** The entry a non-structural child records for itself, if any. */
  function OwnEntries(child: Element, prefix: string): seq<Pair> {
    match AcceptedValue(child.text)
    case Some(value) => [Pair(FieldName(child, prefix), value)]
    case None => []
  }

  /** The entries recorded by one turn of the walk's loop, for `child`: a
      structural child is walked with the same prefix; any other child may
      record its own value and is then walked under its field name. */
  function Visit(child: Element, prefix: string): seq<Pair>
    decreases child, 3
  {
    if IsStructural(LocalName(child.tag)) then Walk(child, prefix)
    else FieldVisit(child, prefix)
  }

  /** The turn for a child that is not structural: its own entry, if any,
      then the entries of its children, walked under its field name. */
  function FieldVisit(child: Element, prefix: string): seq<Pair>
    decreases child, 2
  {
    OwnEntries(child, prefix)
    + (if |child.children| > 0 then Walk(child, FieldName(child, prefix)) else [])
  }

  /** One turn of the walk's loop keeps its invariant: once the entries of
      child `i` are written, writing those of the later children gives the
      same dictionary as writing those of child `i` onwards. */
  lemma VisitStep(e: Element, i: nat, prefix: string, before: Dict, after: Dict, target: Dict)
    requires i < |e.children|
    requires PutAll(before, WalkFrom(e, i, prefix)) == target
    requires after == PutAll(before, Visit(e.children[i], prefix))
    ensures PutAll(after, WalkFrom(e, i + 1, prefix)) == target
  {
    PutAllAppend(before, Visit(e.children[i], prefix), WalkFrom(e, i + 1, prefix));
  }

  /** The turn for a structural child, which is walked with the same
      prefix. */
  lemma StructuralStep(e: Element, i: nat, prefix: string, before: Dict, after: Dict, target: Dict)
    requires i < |e.children| && IsStructural(LocalName(e.children[i].tag))
    requires PutAll(before, WalkFrom(e, i, prefix)) == target
    requires after == PutAll(before, Walk(e.children[i], prefix))
    ensures PutAll(after, WalkFrom(e, i + 1, prefix)) == target
  {
    VisitStep(e, i, prefix, before, after, target);
  }

  /** The turn for any other child: `accepted` is its accepted value and
      `name` its field path, cleaned when a value is accepted; `mid` is the
      dictionary after that value is stored, if it is, and `after` the one
      after its children are walked under `name`. */
  lemma FieldStep(e: Element, i: nat, prefix: string, accepted: Option<string>, name: string,
                  before: Dict, mid: Dict, after: Dict, target: Dict)
    requires i < |e.children| && !IsStructural(LocalName(e.children[i].tag))
    requires accepted == AcceptedValue(e.children[i].text)
    requires var path := FieldPath(prefix, LocalName(e.children[i].tag));
             name == if accepted.Some? then CleanFieldName(path) else path
    requires PutAll(before, WalkFrom(e, i, prefix)) == target
    requires mid == if accepted.Some? then Put(before, name, accepted.value) else before
    requires after == if |e.children[i].children| > 0 then PutAll(mid, Walk(e.children[i], name)) else mid
    ensures PutAll(after, WalkFrom(e, i + 1, prefix)) == target
  {
    var child := e.children[i];
    var own := OwnEntries(child, prefix);
    var below := if |child.children| > 0 then Walk(child, name) else [];
    if AcceptedValue(child.text).Some? {
      PutAllOne(before, name, AcceptedValue(child.text).value);
    }
    assert mid == PutAll(before, own);
    PutAllAppend(before, own, below);
    VisitStep(e, i, prefix, before, after, target);
  }

  /** The walk: records into `filled` what `extract_fields(element, prefix)`
      records, child by child, recursing into every child that has
      children. */
  method ExtractFields(element: Element, prefix: string, filled: Dict) returns (out: Dict)
    ensures out == PutAll(filled, Walk(element, prefix))
    decreases element
  {
    out := filled;
    for i := 0 to |element.children|
      invariant PutAll(out, WalkFrom(element, i, prefix)) == PutAll(filled, Walk(element, prefix))
    {
      var child := element.children[i];
      ghost var before := out;
      var tag := LocalName(child.tag);
      if IsStructural(tag) {
        out := ExtractFields(child, prefix, out);
        StructuralStep(element, i, prefix, before, out, PutAll(filled, Walk(element, prefix)));
        continue;
      }
      var fieldName := FieldPath(prefix, tag);
      var accepted := AcceptedValue(child.text);
      if accepted.Some? {
        fieldName := CleanFieldName(fieldName);
        out := Put(out, fieldName, accepted.value);
      }
      ghost var mid := out;
      if |child.children| > 0 {
        out := ExtractFields(child, fieldName, out);
      }
      FieldStep(element, i, prefix, accepted, fieldName, before, mid, out, PutAll(filled, Walk(element, prefix)));
    }
  }

  /** The dictionary `extract_filled_values(root)` returns. */
  function FilledValues(root: Element): (d: Dict)
    ensures Valid(d)
  {
    var entries := Walk(FormRoot(DataSection(root)), "");
    PutAllKeepsValid(Empty, entries);
    PutAll(Empty, entries)
  }

  /** `extract_filled_values`: locates the data section and the form root,
      then walks the form root into a fresh dictionary. */
  method ExtractFilledValues(root: Element) returns (filled: Dict)
    ensures filled == FilledValues(root)
  {
    var dataSection := DataSection(root);
    var formRoot := FindFormRoot(dataSection);
    filled := ExtractFields(formRoot, "", Empty);
  }
}
