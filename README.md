# ircc-xfa extractor, modelled in Dafny

The `ircc_xfa` package reads the values a user typed into an XFA form, the
XML-based form format used by Canadian immigration (IRCC) PDF forms such as
IMM 5257 and IMM 5710. Its core is two functions in `ircc_xfa/extractor.py`:

- `extract_filled_values(root)` takes the parsed XFA `datasets` tree.
  - It finds the data section: the first `xfa:data` element, else the
    first `data` element, else the root.
  - It takes the first child whose local tag starts with `form` or `IMM`
    as the form root, or falls back to the data section.
  - It walks the form root recursively and builds dotted field paths.
    Structural wrappers (`datasets`, `data`, ...) are passed through
    without adding a path segment.
  - It records every stripped text that passes a "real data" test. Option
    literals such as `yes`, `no` or `male` are rejected. A value is stored
    under its path with every `form1.`, `IMM5257E_1.` and `IMM5710E_1.`
    removed.
- `extract_xfa_filled_data(pdf)` checks that the PDF has an AcroForm with
  an `/XFA` entry that is a list. It walks that list as name/stream pairs.
  It decodes and parses every stream whose name contains `datasets`, in
  any letter case, and extracts its values. Each packet replaces the
  dictionary built so far, so the last packet wins. A decoding or parsing
  failure ends the extraction with its own error.

The model has one module per concern:

| file | module | what it holds |
|---|---|---|
| `wrappers.dfy` | `Wrappers` | `Option`, `Result` |
| `pystr.dfy` | `PyStr` | the Python `str` operations the source uses: `strip`, `lower`, `isdigit`, `startswith`, `in`, `split`, `replace(p, '')` |
| `xml_tree.dfy` | `XmlTree` | ElementTree elements, local names, document order, `find('.//tag')` |
| `ordered_dict.dfy` | `OrderedDict` | a Python `dict` keeping insertion order; `d[k] = v` |
| `heuristic.dfy` | `Heuristic` | the real-data test |
| `extractor.dfy` | `Extractor` | `extract_filled_values`: specification functions, the form-root loop and the recursive walk as methods |
| `extractor_facts.dfy` | `ExtractorFacts` | properties of the walk and of the cleaned field names |
| `xfa_scan.dfy` | `XfaScan` | `extract_xfa_filled_data`: the error checks and the pair loop as a method, with its properties |

The walk is specified by `Extractor.Walk`: the sequence of `(name, value)`
writes the recursion performs, in order. The imperative `ExtractFields`
threads the dictionary through its `for` loop and recursive calls, and is
proved equal to storing those writes one after another. The writes carry
the accepted texts of the field elements, one each, in document order
(`WalkWritesAcceptedTexts`). The properties of
the output dictionary are then proved about that sequence:

- the last write of a key wins;
- keys keep the order of their first write;
- every value is a stripped, non-empty, real-data text of a field element
  below the form root.

The name cleaning follows the code: `str.replace` removes every
occurrence of a prefix, not only a leading one. A path such as
`a.form1.b` becomes `a.b` (`CleanFieldNameDropsInnerForm1`).

## Model

| member | source | states |
|---|---|---|
| Extractor.DataSectionIsFirstMatch | ircc_xfa/extractor.py:30-36 | The data section is the first element below the root, in document order, tagged `xfa:data` (namespace expanded). If there is none, it is the first tagged `data`. If there is neither, it is the root. |
| XmlTree.FindDescendantIsFirst | ircc_xfa/extractor.py:31 | `find('.//tag')` returns the first element with that tag among the descendants in document order, or nothing. |
| XmlTree.FirstTaggedAppend | ircc_xfa/extractor.py:31 | The first match in a concatenation of two runs of elements comes from the first run when that run has one, otherwise from the second. |
| XmlTree.LocalNameIsSourceForm | ircc_xfa/extractor.py:41 | The local tag, defined as the text after the last `}`, is what `tag.split('}')[-1] if '}' in tag else tag` computes. |
| XmlTree.LocalNameIsAfterLastBrace | ircc_xfa/extractor.py:52 | A local tag has no `}`. It is a suffix of the tag, preceded by `}` when shorter than the tag, so it is the whole tag when the tag has no `}`. |
| XmlTree.LastPieceFacts | ircc_xfa/extractor.py:41 | For a tag with a `}`, the last piece of `tag.split('}')` is the text after the last `}`, and shorter than the tag. |
| XmlTree.AfterLastBraceUnique | ircc_xfa/extractor.py:41 | Only one suffix of a tag is the text after its last `}`. |
| XmlTree.LocalNameIsLastPiece | ircc_xfa/extractor.py:52 | The `'}' in tag` guard changes nothing: the local tag always equals the last piece of `tag.split('}')`. |
| Extractor.FormRootIndex | ircc_xfa/extractor.py:40-44 | Gives no index exactly when no child's local tag starts with `form` or `IMM`. Otherwise it gives the index of such a child with no such child before it. |
| Extractor.FindFormRoot | ircc_xfa/extractor.py:38-47 | The loop that breaks at the first matching child returns that child, or the data section when none matches. |
| Extractor.AcceptedValueSpec | ircc_xfa/extractor.py:63-64 | A recorded value is the stripped text, non-empty, stripped and real data. A missing or all-whitespace text records nothing. A text whose stripped form is real data is recorded. |
| Heuristic.UnmarkedValueRule | ircc_xfa/extractor.py:68-86 | For a value without a digit, `@` or space: it is rejected exactly when it is at most 2 characters or its lower-case form is one of the eleven option words. The over-20-characters clause never decides alone. |
| Heuristic.MarkedValueIsRealData | ircc_xfa/extractor.py:81-83 | A value with a digit, an `@` or a space always passes. |
| Heuristic.OptionsAreShort | ircc_xfa/extractor.py:68-71 | Every option word has at most 7 characters. |
| PyStr.StripSpec | ircc_xfa/extractor.py:63-64 | `strip()` removes exactly the leading and trailing Python whitespace. The result is empty exactly when the text is all whitespace. |
| Extractor.ExtractFields | ircc_xfa/extractor.py:49-98 | After walking `element` under `prefix`, the dictionary is the one given with the walk's writes stored one after another, in document order (see `WalkWritesAcceptedTexts`). |
| Extractor.VisitStep | ircc_xfa/extractor.py:51-98 | Writing one child's entries and then the later children's gives what writing from that child onwards gives. |
| Extractor.StructuralStep | ircc_xfa/extractor.py:55-57 | A structural child is walked with the same prefix, and no entry for the child itself. |
| Extractor.FieldStep | ircc_xfa/extractor.py:59-98 | Any other child stores its accepted value under the cleaned path. Its children are then walked under that cleaned path when the value was stored, and under the raw path otherwise. |
| ExtractorFacts.StructuralChildIsSpliced | ircc_xfa/extractor.py:55-57 | Replacing a structural wrapper by its own children leaves the walk's writes unchanged. |
| ExtractorFacts.TopLevelFieldRecorded | ircc_xfa/extractor.py:60-94 | A direct field child of the form root with an accepted value is written under its cleaned local tag. A tag without `.` is written unchanged. |
| ExtractorFacts.FilledValuesAreRecordedTexts | ircc_xfa/extractor.py:25-101 | Every value of the result is non-empty, stripped and real data. It is the accepted text of a non-structural element below the form root. |
| ExtractorFacts.WalkValueRecorded | ircc_xfa/extractor.py:49-98 | Every value the walk writes is the accepted text of a field element below the walked element. |
| ExtractorFacts.WalkWritesField | ircc_xfa/extractor.py:49-98 | Value level: the accepted text of every field element at any depth below the walked element is carried by some write, whether or not the elements between them have accepted texts of their own. |
| ExtractorFacts.WalkWritesAcceptedTexts | ircc_xfa/extractor.py:49-98 | The values the walk writes are, one for one and in the same order, the accepted texts of the field elements below the walked element in document order. |
| ExtractorFacts.LaterFieldLaterWrite | ircc_xfa/extractor.py:49-98 | Of two field elements, the one earlier in document order has the earlier write: fewer field elements come before it. With `OrderedDict.LastWriteWins`, this is why the later of two fields with the same key supplies its value. |
| ExtractorFacts.AcceptedTextAt | ircc_xfa/extractor.py:49-98 | The field element at a given position in document order gives the accepted text at the position that counts the field elements before it. |
| ExtractorFacts.NestedFieldRecorded | ircc_xfa/extractor.py:59-98 | A field two levels down is written under its parent's field name, then a dot, then its own local tag, with the prefixes removed. |
| ExtractorFacts.WrittenValueStored | ircc_xfa/extractor.py:94 | Each write's key is in the dictionary filled from empty, and holds that write's value unless a later write to the same key replaces it. |
| ExtractorFacts.EveryFieldIsStored | ircc_xfa/extractor.py:25-101 | A field element below the form root whose stripped text passes the real-data test has its own write. That write's position is the number of such elements before it in document order, so two fields with equal texts get two writes. The write's key is in the result and holds the element's value, unless a later write to the same key replaces it. |
| ExtractorFacts.WalkIsVisitAll | ircc_xfa/extractor.py:51 | The walk of an element is the concatenation of its children's turns, in order. |
| ExtractorFacts.VisitInWalk | ircc_xfa/extractor.py:51-98 | Every write of one child's turn is among the writes of the walk of its parent. |
| ExtractorFacts.CleanFieldNameUnchanged | ircc_xfa/extractor.py:90-93 | A path containing none of the three prefixes is kept as it is. |
| ExtractorFacts.CleanFieldNameWithoutDot | ircc_xfa/extractor.py:90-93 | A path without `.` is kept as it is. |
| ExtractorFacts.CleanFieldNameDropsLeadingForm1 | ircc_xfa/extractor.py:91 | A leading `form1.` disappears: the result is the cleaned rest. |
| ExtractorFacts.CleanFieldNameOfForm1Path | ircc_xfa/extractor.py:90-93 | `form1.` followed by a rest that contains none of the three prefixes cleans to that rest. |
| ExtractorFacts.CleanFieldNameDropsInnerForm1 | ircc_xfa/extractor.py:91 | A `form1.` in the middle of a path is removed too, not only a leading one. |
| PyStr.RemoveAllIsConcatOfSplit | ircc_xfa/extractor.py:90-93 | `replace(p, '')` is the concatenation of the pieces of `split(p)`. |
| PyStr.SplitJoin | ircc_xfa/extractor.py:41 | Joining the pieces of a split with the separator gives back the string. |
| Extractor.ExtractFilledValues | ircc_xfa/extractor.py:9-101 | Returns the dictionary that walking the form root of the data section into an empty dictionary gives. |
| Extractor.FilledValues | ircc_xfa/extractor.py:25-101 | The returned dictionary is well formed: each key is listed once, and the listed keys are exactly the mapped ones. |
| OrderedDict.PutSpec | ircc_xfa/extractor.py:94 | After `d[k] = v`, `k` holds `v` and every other key keeps its value or stays absent. An existing key keeps its place, and a new key goes at the end. |
| OrderedDict.LastWriteWins | ircc_xfa/extractor.py:94 | A write that no later write to the same key overwrites supplies that key's value. |
| OrderedDict.UnwrittenKeyKept | ircc_xfa/extractor.py:94 | A key that no write touches keeps its value, or stays absent. |
| OrderedDict.StoredFromSomePair | ircc_xfa/extractor.py:94 | A key is in the dictionary exactly when some write names it. Its value is one of the values written to it. |
| OrderedDict.InsertionOrder | ircc_xfa/extractor.py:94 | Keys are listed in the order of their first write, whatever later writes overwrite. |
| OrderedDict.PutAllAppend | ircc_xfa/extractor.py:94 | Storing two runs of writes is storing their concatenation. |
| OrderedDict.PutAllKeepsValid | ircc_xfa/extractor.py:94 | Storing writes keeps a well-formed dictionary well formed. |
| XfaScan.ExtractXfaFilledData | ircc_xfa/extractor.py:118-162 | Errors come in order: no AcroForm, then no `/XFA`, then not a list. Otherwise the loop over the pairs, stepping by two, returns what the specification `XfaFilledData` gives. |
| XfaScan.DatasetStreamsAreReadPairs | ircc_xfa/extractor.py:138-144 | A stream is read exactly when it is entry `i + 1` for an even `i` with entry `i + 1` present, entry `i` names `datasets` in lower case, and entry `i + 1` is a stream. |
| XfaScan.DatasetStreamsAppendPair | ircc_xfa/extractor.py:138-144 | Pairs are read in list order: appending a pair appends its stream exactly when the pair qualifies. |
| XfaScan.DatasetStreamsIgnoreUnpairedLast | ircc_xfa/extractor.py:139 | A trailing name without a stream after it is ignored. |
| XfaScan.DatasetsNameIgnoresCase | ircc_xfa/extractor.py:144 | A name containing `datasets` in any letter case qualifies. |
| XfaScan.ScanKeepsLastPacket | ircc_xfa/extractor.py:145-149 | When every packet loads, the scan ends with the last packet's tree, or with the tree it started from when there are no packets. |
| XfaScan.ScanStopsAtFirstFailure | ircc_xfa/extractor.py:145-153 | The scan fails with the error of the first packet that does not load. |
| XfaScan.ExtractionKeepsLastPacket | ircc_xfa/extractor.py:138-149 | When every packet loads, the result is the filled values of the last `datasets` packet, or an empty dictionary when there is none. |
| XfaScan.ExtractionStopsAtFirstFailure | ircc_xfa/extractor.py:145-153 | The extraction fails with the decode or parse error of the first packet that fails, even when later packets would load. |
| XfaScan.NoDatasetsPairGivesEmpty | ircc_xfa/extractor.py:118-162 | A list with no qualifying pair gives an empty dictionary. |

## Left out

- Opening the PDF is not modelled. pikepdf is not part of this model, and
  neither are `FileNotFoundError` or the `RuntimeError` that wraps other
  exceptions (lines 121 and 155-160). A `Document` stands for the catalog
  already read.
- UTF-8 decoding and `ET.fromstring` are parameters, `decode` and `parse`.
  Each answers `None` where Python raises `UnicodeDecodeError` or
  `ET.ParseError`. The XML parser and ElementTree's namespace expansion
  are not modelled, and the tree arrives already parsed, with tags in
  `{uri}local` form.
- The messages of the `ValueError`s are not modelled. Each error is one
  constructor of `XfaScan.ExtractError`.
- Errors other than decode and parse failures are not modelled. One is
  a `read_bytes()` failure at line 146. Another is XML nested deeper than
  Python's recursion limit: the recursive `extract_fields` (line 98) then
  raises `RecursionError`, which lines 157-160 turn into a `RuntimeError`.
  The model's walk has no depth limit.
- `PyStr.Lower` and `PyStr.IsDigit` cover ASCII only. This is exact for
  the comparisons made: `lower()` is only compared against the
  lower-case ASCII option words and against `datasets`. `isdigit()` also
  accepts other Unicode digits, which the model treats as non-digits.
- The command-line entry point, the package `__init__` and JSON output
  are outside the extraction core.
