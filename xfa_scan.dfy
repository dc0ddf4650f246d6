/**
 * `extract_xfa_filled_data`: finds the XFA array of a PDF's interactive
 * form, walks its name/stream pairs and extracts the filled values of every
 * `datasets` packet, the last one winning.
 *
 * Opening the PDF file, UTF-8 decoding and XML parsing are not modelled:
 * the PDF arrives as an already-read `Document`, and decoding and parsing
 * are the function parameters `decode` and `parse`, each answering `None`
 * where Python raises `UnicodeDecodeError` or `ET.ParseError`.
 */
module XfaScan {
  import opened Wrappers
  import opened PyStr
  import opened XmlTree
  import opened OrderedDict
  import opened Extractor

  newtype Byte = b: int | 0 <= b < 256

  /** One entry of the XFA array: what `str()` gives for it, and its bytes
      when it is a stream (has `read_bytes`). */
  datatype PdfObject = PdfObject(text: string, bytes: Option<seq<Byte>>)

  /** The value stored under `/XFA`: something `list()` turns into a list of
      entries, or something it refuses with a `TypeError`. */
  datatype XfaValue = XfaList(items: seq<PdfObject>) | NotAList

  /** The `/AcroForm` dictionary, reduced to its `/XFA` entry. */
  datatype AcroForm = AcroForm(xfa: Option<XfaValue>)

  /** The document catalog, reduced to its `/AcroForm` entry. */
  datatype Document = Document(acroForm: Option<AcroForm>)

  /** The `ValueError`s the extraction raises, in the order it checks. */
  datatype ExtractError =
    | NoAcroForm           // "does not contain AcroForm"
    | NoXfa                // "does not contain XFA data"
    | UnexpectedXfaFormat  // "XFA data in unexpected format"
    | DecodeFailed         // "Failed to decode XFA data"
    | XmlParseFailed       // "Failed to parse XFA XML"

  /** `'datasets' in name.lower()`. */
  predicate IsDatasetsName(name: string) {
    Contains(Lower(name), "datasets")
  }

  /** The streams the loop reads, in order: for every even `i` with an
      entry at `i + 1`, the bytes of entry `i + 1` when the text of entry
      `i` names a `datasets` packet and entry `i + 1` is a stream. */
  function DatasetStreams(items: seq<PdfObject>): seq<seq<Byte>>
    decreases |items|
  {
    if |items| < 2 then []
    else
      var rest := DatasetStreams(items[2..]);
      if IsDatasetsName(items[0].text) && items[1].bytes.Some? then [items[1].bytes.value] + rest
      else rest
  }

  /** Decoding, then parsing, one packet. */
  function LoadPacket(bytes: seq<Byte>, decode: seq<Byte> -> Option<string>,
                      parse: string -> Option<Element>): Result<Element, ExtractError>
  {
    match decode(bytes)
    case None => Failure(DecodeFailed)
    case Some(xml) =>
      match parse(xml)
      case None => Failure(XmlParseFailed)
      case Some(root) => Success(root)
  }

  /** The loop over the packets, from the tree `last` loaded so far on:
      each packet that loads becomes the last tree, and the first packet
      that fails to load ends the extraction with its error. */
  function ScanFrom(streams: seq<seq<Byte>>, last: Option<Element>,
                    decode: seq<Byte> -> Option<string>,
                    parse: string -> Option<Element>): Result<Option<Element>, ExtractError>
    decreases |streams|
  {
    if streams == [] then Success(last)
    else
      match LoadPacket(streams[0], decode, parse)
      case Failure(e) => Failure(e)
      case Success(root) => ScanFrom(streams[1..], Some(root), decode, parse)
  }

  /** The dictionary the loop holds once `last` was the last tree loaded:
      each packet's values replace the previous ones, and the dictionary
      starts out empty. */
  function ValuesOf(last: Option<Element>): Dict {
    match last
    case None => Empty
    case Some(root) => FilledValues(root)
  }

  /** What `extract_xfa_filled_data` returns or raises for a document. */
  function XfaFilledData(doc: Document, decode: seq<Byte> -> Option<string>,
                         parse: string -> Option<Element>): Result<Dict, ExtractError>
  {
    match doc.acroForm
    case None => Failure(NoAcroForm)
    case Some(form) =>
      match form.xfa
      case None => Failure(NoXfa)
      case Some(NotAList) => Failure(UnexpectedXfaFormat)
      case Some(XfaList(items)) =>
        match ScanFrom(DatasetStreams(items), None, decode, parse)
        case Failure(e) => Failure(e)
        case Success(last) => Success(ValuesOf(last))
  }

  /** The entries from `i` on, or none once `i` has stepped past the end. */
  function From(items: seq<PdfObject>, i: nat): seq<PdfObject> {
    if i <= |items| then items[i..] else []
  }

  /** The extraction: checks for the form, then for its XFA entry, then
      that the entry is a list, and walks the list two entries at a time. */
  method ExtractXfaFilledData(doc: Document, decode: seq<Byte> -> Option<string>,
                              parse: string -> Option<Element>)
    returns (r: Result<Dict, ExtractError>)
    ensures r == XfaFilledData(doc, decode, parse)
    ensures doc.acroForm.None? ==> r == Failure(NoAcroForm)
    ensures doc.acroForm.Some? && doc.acroForm.value.xfa.None? ==> r == Failure(NoXfa)
    ensures doc.acroForm.Some? && doc.acroForm.value.xfa == Some(NotAList) ==> r == Failure(UnexpectedXfaFormat)
  {
    if doc.acroForm.None? {
      return Failure(NoAcroForm);
    }
    var form := doc.acroForm.value;
    if form.xfa.None? {
      return Failure(NoXfa);
    }
    if form.xfa.value.NotAList? {
      return Failure(UnexpectedXfaFormat);
    }
    var items := form.xfa.value.items;
    var n := |items|;
    var formData := Empty;
    ghost var last: Option<Element> := None;
    var i := 0;
    while i < n
      invariant i % 2 == 0 && i <= n + 1
      invariant formData == ValuesOf(last)
      invariant ScanFrom(DatasetStreams(From(items, i)), last, decode, parse)
             == ScanFrom(DatasetStreams(items), None, decode, parse)
      decreases n - i
    {
      ghost var here := From(items, i);
      if i + 1 < n {
        var name := items[i].text;
        var stream := items[i + 1];
        assert here[2..] == From(items, i + 2);
        if IsDatasetsName(name) && stream.bytes.Some? {
          var xml := decode(stream.bytes.value);
          if xml.None? {
            return Failure(DecodeFailed);
          }
          var root := parse(xml.value);
          if root.None? {
            return Failure(XmlParseFailed);
          }
          formData := ExtractFilledValues(root.value);
          last := root;
        }
      }
      i := i + 2;
    }
    return Success(formData);
  }

  // ---------------------------------------------------------------------
  // Which packets are read
  // ---------------------------------------------------------------------

  /** The loop reads the stream at `i + 1` as a `datasets` packet: `i` is
      one of the even positions it visits, entry `i + 1` exists, entry `i`
      names a `datasets` packet and entry `i + 1` is a stream. */
  predicate ReadsPair(items: seq<PdfObject>, i: int) {
    0 <= i && i % 2 == 0 && i + 1 < |items|
    && IsDatasetsName(items[i].text) && items[i + 1].bytes.Some?
  }

  /** A stream is read exactly when it sits right after a `datasets` name
      at an even position; entries at odd positions are never taken for
      names. */
  lemma {:induction false} DatasetStreamsAreReadPairs(items: seq<PdfObject>)
    ensures forall s :: s in DatasetStreams(items) <==>
              exists i :: ReadsPair(items, i) && items[i + 1].bytes == Some(s)
    decreases |items|
  {
    if |items| >= 2 {
      var tail := items[2..];
      DatasetStreamsAreReadPairs(tail);
      forall i | 0 <= i ensures ReadsPair(tail, i) <==> ReadsPair(items, i + 2) {
        assert i % 2 == 0 <==> (i + 2) % 2 == 0;
      }
      forall s | s in DatasetStreams(items)
        ensures exists i :: ReadsPair(items, i) && items[i + 1].bytes == Some(s)
      {
        if s !in DatasetStreams(tail) {
          assert ReadsPair(items, 0) && items[1].bytes == Some(s);
        } else {
          var i :| ReadsPair(tail, i) && tail[i + 1].bytes == Some(s);
          assert ReadsPair(items, i + 2) && items[i + 3].bytes == Some(s);
        }
      }
      forall s, i | ReadsPair(items, i) && items[i + 1].bytes == Some(s)
        ensures s in DatasetStreams(items)
      {
        if i >= 2 {
          assert ReadsPair(tail, i - 2) && tail[i - 1].bytes == Some(s);
        }
      }
    }
  }

  /** Packets are read in array order: appending a name/stream pair to a
      list of whole pairs appends that pair's stream, when it is read, after
      all the others. */
  lemma {:induction false} DatasetStreamsAppendPair(items: seq<PdfObject>, name: PdfObject, stream: PdfObject)
    requires |items| % 2 == 0
    ensures DatasetStreams(items + [name, stream])
         == DatasetStreams(items)
            + (if IsDatasetsName(name.text) && stream.bytes.Some? then [stream.bytes.value] else [])
    decreases |items|
  {
    if items == [] {
      assert ([] + [name, stream])[2..] == [];
    } else {
      assert (items + [name, stream])[2..] == items[2..] + [name, stream];
      DatasetStreamsAppendPair(items[2..], name, stream);
    }
  }

  /** An entry left without a partner at the end of the array is ignored. */
  lemma {:induction false} DatasetStreamsIgnoreUnpairedLast(items: seq<PdfObject>, last: PdfObject)
    requires |items| % 2 == 0
    ensures DatasetStreams(items + [last]) == DatasetStreams(items)
    decreases |items|
  {
    if items != [] {
      assert (items + [last])[2..] == items[2..] + [last];
      DatasetStreamsIgnoreUnpairedLast(items[2..], last);
    }
  }

  /** The name test ignores case: any spelling of `datasets` in upper or
      lower case, anywhere in the name, makes it a `datasets` name. */
  lemma DatasetsNameIgnoresCase(front: string, word: string, back: string)
    requires Lower(word) == "datasets"
    ensures IsDatasetsName(front + word + back)
  {
    var name := front + word + back;
    var lowered := Lower(name);
    assert |word| == 8;
    assert lowered[|front|..|front| + 8] == "datasets" by {
      forall k | 0 <= k < 8 ensures lowered[|front| + k] == Lower(word)[k] {
        assert name[|front| + k] == word[k];
      }
    }
    assert OccursAt(lowered, "datasets", |front|);
  }

  // ---------------------------------------------------------------------
  // What the loop over the packets produces
  // ---------------------------------------------------------------------

  /** When every packet loads, the last tree loaded is the last packet's:
      each packet replaces, rather than adds to, what came before it. */
  lemma {:induction false} ScanKeepsLastPacket(streams: seq<seq<Byte>>, last: Option<Element>,
                                               decode: seq<Byte> -> Option<string>,
                                               parse: string -> Option<Element>)
    requires forall k :: 0 <= k < |streams| ==> LoadPacket(streams[k], decode, parse).Success?
    ensures ScanFrom(streams, last, decode, parse)
         == Success(if streams == [] then last else Some(LoadPacket(Last(streams), decode, parse).value))
    decreases |streams|
  {
    if streams != [] {
      var root := LoadPacket(streams[0], decode, parse).value;
      var tail := streams[1..];
      forall k | 0 <= k < |tail| ensures LoadPacket(tail[k], decode, parse).Success? {
        assert tail[k] == streams[k + 1];
      }
      ScanKeepsLastPacket(tail, Some(root), decode, parse);
      if tail != [] {
        assert Last(tail) == Last(streams);
      }
    }
  }

  /** The first packet that fails to decode or to parse ends the
      extraction with that packet's error, whatever follows it. */
  lemma {:induction false} ScanStopsAtFirstFailure(streams: seq<seq<Byte>>, last: Option<Element>, k: nat,
                                                   decode: seq<Byte> -> Option<string>,
                                                   parse: string -> Option<Element>)
    requires k < |streams|
    requires LoadPacket(streams[k], decode, parse).Failure?
    requires forall j :: 0 <= j < k ==> LoadPacket(streams[j], decode, parse).Success?
    ensures ScanFrom(streams, last, decode, parse)
         == Failure(LoadPacket(streams[k], decode, parse).error)
    decreases k
  {
    if k > 0 {
      var root := LoadPacket(streams[0], decode, parse).value;
      var tail := streams[1..];
      assert tail[k - 1] == streams[k];
      forall j | 0 <= j < k - 1 ensures LoadPacket(tail[j], decode, parse).Success? {
        assert tail[j] == streams[j + 1];
      }
      ScanStopsAtFirstFailure(tail, Some(root), k - 1, decode, parse);
    }
  }

  /** When every `datasets` packet of the XFA array loads, the extraction
      returns the filled values of the last of them, or an empty dictionary
      when there is none. */
  lemma ExtractionKeepsLastPacket(items: seq<PdfObject>, decode: seq<Byte> -> Option<string>,
                                  parse: string -> Option<Element>)
    requires forall k :: 0 <= k < |DatasetStreams(items)| ==>
               LoadPacket(DatasetStreams(items)[k], decode, parse).Success?
    ensures var streams := DatasetStreams(items);
            var doc := Document(Some(AcroForm(Some(XfaList(items)))));
            XfaFilledData(doc, decode, parse)
            == Success(if streams == [] then Empty
                       else FilledValues(LoadPacket(Last(streams), decode, parse).value))
  {
    ScanKeepsLastPacket(DatasetStreams(items), None, decode, parse);
  }

  /** The extraction fails with the error of the first `datasets` packet
      that does not load. */
  lemma ExtractionStopsAtFirstFailure(items: seq<PdfObject>, k: nat,
                                      decode: seq<Byte> -> Option<string>,
                                      parse: string -> Option<Element>)
    requires k < |DatasetStreams(items)|
    requires LoadPacket(DatasetStreams(items)[k], decode, parse).Failure?
    requires forall j :: 0 <= j < k ==> LoadPacket(DatasetStreams(items)[j], decode, parse).Success?
    ensures XfaFilledData(Document(Some(AcroForm(Some(XfaList(items))))), decode, parse)
         == Failure(LoadPacket(DatasetStreams(items)[k], decode, parse).error)
  {
    ScanStopsAtFirstFailure(DatasetStreams(items), None, k, decode, parse);
  }

  /** A list in which no pair names a `datasets` packet yields an empty
      result, not an error. */
  lemma NoDatasetsPairGivesEmpty(items: seq<PdfObject>, decode: seq<Byte> -> Option<string>,
                                 parse: string -> Option<Element>)
    requires forall i :: !ReadsPair(items, i)
    ensures XfaFilledData(Document(Some(AcroForm(Some(XfaList(items))))), decode, parse) == Success(Empty)
  {
    DatasetStreamsAreReadPairs(items);
    if DatasetStreams(items) != [] {
      assert DatasetStreams(items)[0] in DatasetStreams(items);
    }
  }
}
