/**
 * PDFDocument: the byte buffer of a PDF file and what is built from it.
 * Parsing the buffer (the CGPDFDocument) is a parameter of the document,
 * as is the routine that splices new field values into the buffer; the
 * document keeps the catalog, the info dictionary, the pages and the form
 * container consistent with the bytes it last loaded.
 */
module Documents {
  import opened Wrappers
  import opened Primitives
  import opened Objects
  import opened Dictionaries
  import opened Forms

  /** What parsing a buffer yields. compressed says whether some field
      lives in a filtered stream, where values cannot be spliced as text. */
  datatype Parsed = Parsed(
    catalog: map<string, Primitive>,
    info: map<string, Primitive>,
    pages: seq<map<string, Primitive>>,
    forms: seq<Form>,
    compressed: bool)

  /** The pages of a parse; an unreadable buffer has none. */
  function PagesOf(p: Option<Parsed>): (r: seq<map<string, Primitive>>)
    ensures p.None? ==> r == []
  {
    if p.Some? then p.value.pages else []
  }

  /** The form fields of a parse; an unreadable buffer has none. */
  function FormsOf(p: Option<Parsed>): (r: seq<Form>)
    ensures p.None? ==> r == []
  {
    if p.Some? then p.value.forms else []
  }

  /** What a splice routine owes: the spliced buffer parses back to the
      very fields it was given. */
  ghost predicate SpliceReadsBack(parse: seq<byte> -> Option<Parsed>,
                                  splice: (seq<byte>, seq<Form>) -> Option<seq<byte>>)
  {
    forall data, fs :: splice(data, fs).Some? ==> FormsOf(parse(splice(data, fs).value)) == fs
  }

  /** codeForObjectWithNumber:GenerationNumber: has no implementation. */
  datatype ObjectCode = NotImplemented | Code(text: string)

  class PdfDocument {
    /** The PDF file data (NSMutableData). */
    var documentData: seq<byte>
    /** The path the document was loaded from; None when built from memory. */
    const documentPath: Option<string>
    /** The parser standing for the CGPDFDocument built over a buffer. */
    const parse: seq<byte> -> Option<Parsed>
    /** The splice of field values into a buffer; None when it cannot be done. */
    const splice: (seq<byte>, seq<Form>) -> Option<seq<byte>>
    /** The bytes the current catalog, info, pages and forms were built from. */
    var loaded: seq<byte>
    var catalog: PdfDictionary?
    var info: PdfDictionary?
    var pages: seq<map<string, Primitive>>
    var forms: FormContainer

    /** Everything the document exposes was built from the loaded bytes. */
    ghost predicate Valid()
      reads this, forms
    {
      var p := parse(loaded);
      && forms.document == this
      && pages == PagesOf(p)
      && (p.None? ==> catalog == null && info == null)
      && (p.Some? ==> catalog != null && info != null
                      && catalog.dict == p.value.catalog && info.dict == p.value.info)
    }

    /** initWithData. */
    constructor InitWithData(data: seq<byte>, parser: seq<byte> -> Option<Parsed>,
                             splicer: (seq<byte>, seq<Form>) -> Option<seq<byte>>)
      ensures Valid()
      ensures documentData == loaded == data && documentPath == None
      ensures parse == parser && splice == splicer
      ensures fresh(forms) && forms.forms == FormsOf(parser(data)) && forms.documentValues == map[]
    {
      documentData := data;
      documentPath := None;
      parse := parser;
      splice := splicer;
      loaded := data;
      catalog := null;
      info := null;
      pages := [];
      forms := new FormContainer(null, []);
      new;
      Refresh();
    }

    /** initWithPath: contents are the bytes read from the file at path. */
    constructor InitWithPath(path: string, contents: seq<byte>, parser: seq<byte> -> Option<Parsed>,
                             splicer: (seq<byte>, seq<Form>) -> Option<seq<byte>>)
      ensures Valid()
      ensures documentData == loaded == contents && documentPath == Some(path)
      ensures parse == parser && splice == splicer
      ensures fresh(forms) && forms.forms == FormsOf(parser(contents)) && forms.documentValues == map[]
    {
      documentData := contents;
      documentPath := Some(path);
      parse := parser;
      splice := splicer;
      loaded := contents;
      catalog := null;
      info := null;
      pages := [];
      forms := new FormContainer(null, []);
      new;
      Refresh();
    }

    /** refresh: catalog, info, pages and forms rebuilt from documentData
        alone, so refreshing again without a change in between rebuilds the
        same pages and form values. */
    method Refresh()
      modifies this
      ensures Valid()
      ensures documentData == old(documentData) && loaded == documentData
      ensures fresh(forms) && forms.forms == FormsOf(parse(documentData)) && forms.documentValues == map[]
      ensures catalog != null ==> fresh(catalog) && catalog.parent == null && catalog.nsd.None?
      ensures info != null ==> fresh(info) && info.parent == null && info.nsd.None?
    {
      loaded := documentData;
      var p := parse(documentData);
      if p.Some? {
        catalog := new PdfDictionary(p.value.catalog, Direct);
        info := new PdfDictionary(p.value.info, Direct);
      } else {
        catalog := null;
        info := null;
      }
      pages := PagesOf(p);
      forms := new FormContainer(this, FormsOf(p));
    }

    /** numberOfPages: counted on the loaded document, it agrees with pages. */
    method NumberOfPages() returns (n: nat)
      requires Valid()
      ensures n == |pages|
    {
      var p := parse(loaded);
      if p.Some? {
        n := |p.value.pages|;
      } else {
        n := 0;
      }
    }

    /** saveFormsToDocumentData: fails on an unreadable or compressed
        buffer and when the splice cannot be done, and then leaves the
        buffer as it was; on success the buffer holds the spliced values. */
    method SaveFormsToDocumentData() returns (ok: bool)
      modifies this
      ensures parse(old(documentData)).None? ==> !ok
      ensures parse(old(documentData)).Some? && parse(old(documentData)).value.compressed ==> !ok
      ensures !ok ==> documentData == old(documentData)
      ensures ok <==> parse(old(documentData)).Some? && !parse(old(documentData)).value.compressed
                      && splice(old(documentData), forms.forms).Some?
      ensures ok ==> documentData == splice(old(documentData), forms.forms).value
      ensures ok && SpliceReadsBack(parse, splice) ==> FormsOf(parse(documentData)) == forms.forms
      ensures loaded == old(loaded) && catalog == old(catalog) && info == old(info)
      ensures pages == old(pages) && forms == old(forms)
    {
      var p := parse(documentData);
      if p.None? || p.value.compressed {
        return false;
      }
      var spliced := splice(documentData, forms.forms);
      if spliced.None? {
        return false;
      }
      documentData := spliced.value;
      return true;
    }

    /** writeToFile: the bytes handed to the file are the buffer as it is;
        forms are not saved on the way. */
    method WriteToFile(path: string) returns (written: seq<byte>)
      ensures written == documentData
    {
      written := documentData;
    }

    /** codeForObjectWithNumber:GenerationNumber: not implemented. */
    method CodeForObjectWithNumber(objectNumber: int, generationNumber: int) returns (r: ObjectCode)
      ensures r == NotImplemented
    {
      r := NotImplemented;
    }
  }
}
