# ILPDFKit core in Dafny

ILPDFKit exposes the structure of a PDF file as objects: a document holding
the file's bytes, a catalog and info dictionary, a page list and a container
of interactive form fields. Dictionaries fill a cache of resolved entries
lazily, every low-level primitive resolves to one representation class,
and a few class methods handle the lexical side of PDF syntax (white space,
comments, name escapes, integer text).

This project models that core and proves what its interfaces promise.

- `wrappers.dfy`: the `Option` type.
- `primitives.dfy`: the nine primitive kinds of a parsed file
  (`CGPDFObjectType`) and the stream data formats. Indirect objects carry
  their object and generation numbers.
- `utility.dfy` (`PDFUtility`): the white-space set of Table 1 of
  ISO 32000-1, collapsing white space and comments (sections 7.2.2–7.2.3),
  name encoding with `#XX` escapes (section 7.3.5) and its decoder, literal
  string escapes (section 7.3.4, Table 3) and their decoder, and decimal
  integers (section 7.3.3) with their parser. It also models
  `pdfObjectRepresentationFrom:Type:`.
- `objects.dfy` (`PDFObject`, `PDFStream`): the class hierarchy as one
  tagged datatype. It covers resolution of a primitive to its class,
  object and generation numbers, and `pdfFileRepresentation`.
- `dictionaries.dfy` (`PDFDictionary`): a class over a backing map with a
  lazily filled cache `nsd` and a `parent` link. It covers key queries,
  counting, enumeration and comparison.
- `forms.dfy` (`PDFFormContainer`): the form fields and the group
  synchronisation of same-named fields. Whether a button is checked is
  derived from its export value. The container also holds the script
  environment's document-value table.
- `documents.dfy` (`PDFDocument`): the byte buffer, the path, and the
  catalog, info, pages and forms rebuilt from the buffer. It covers saving
  forms into the buffer, writing, and the unimplemented object lookup.

The model follows the library's public headers and their doc comments.
Some choices are not pinned
down by a header: which characters of a name are escaped, how a real is
printed, and how the bytes of a non-ASCII name are chosen. For these the
model follows ISO 32000-1. Names are escaped as `#XX` over their UTF-8
bytes, exactly when the character is outside `!`..`~`, a delimiter or `#`.
Literal strings escape `(`, `)`, `\` and CR, and write non-ASCII
characters as `\ddd` octal escapes of their UTF-8 bytes. A dictionary
entry whose value is null counts as absent, as section 7.3.7 of
ISO 32000-1 says. Two things are parameters of a document: parsing a
buffer (the `CGPDFDocument`) and the byte splice used by
`saveFormsToDocumentData`.

## Model

| member | source | states |
|---|---|---|
| Primitives.Target | ILPDFKit/PDFObject.h:24 | following indirect references ends at a non-indirect value of the same kind |
| Utility.WhiteSpaceCharacterSet | ILPDFKit/PDFUtility.h:60-63 | the set holds exactly NUL, HT, LF, FF, CR and SP, six characters |
| Utility.Collapse | ILPDFKit/PDFUtility.h:66-70 | its output is collapsed: SP is the only white space left, no `%` remains, and no two SP are adjacent; inside a run it never starts with SP |
| Utility.StringReplacingWhiteSpaceWithSingleSpace | ILPDFKit/PDFUtility.h:66-70 | the result has no white space other than SP, no comment and no two adjacent SP |
| Utility.CollapseKeepsText | ILPDFKit/PDFUtility.h:66-70 | collapsing keeps every non-white-space character outside comments, in order, and nothing else |
| Utility.StringReplacingKeepsText | ILPDFKit/PDFUtility.h:66-70 | the non-white-space text of the result is that of the input with comments removed |
| Utility.CollapseFixesCollapsed | ILPDFKit/PDFUtility.h:66-70 | a collapsed string is left unchanged by collapsing |
| Utility.StringReplacingIsIdempotent | ILPDFKit/PDFUtility.h:66-70 | applying the replacement twice gives the same as applying it once |
| Utility.CollapseIsSquashedSpacing | ILPDFKit/PDFUtility.h:66-70 | the scan equals the two-step reference: turn each white-space character and each comment into one SP, then drop every SP that follows an SP |
| Utility.StringReplacingIsSpacedThenSquashed | ILPDFKit/PDFUtility.h:66-70 | every maximal run of white space and comments becomes exactly one SP, and every other character is kept in place |
| Utility.PdfEncodedString | ILPDFKit/PDFUtility.h:47-51 | every output character is 7-bit and regular: no white space and none of `( ) < > [ ] { } / %` |
| Utility.NameRoundTrip | ILPDFKit/PDFUtility.h:47-51 | decoding the `#XX` escapes of an encoded name gives back exactly the UTF-8 bytes of the name |
| Utility.EscapeLiteral | ILPDFKit/PDFObject.h:90-93 | the escaped body of a literal string is ASCII |
| Utility.LiteralRoundTrip | ILPDFKit/PDFObject.h:90-93 | reading back an escaped literal string (Table 3 escapes, end-of-line normalisation) gives exactly the UTF-8 bytes of the text |
| Utility.NatDigits | ILPDFKit/PDFUtility.h:53-58 | the decimal digits of a natural number: at least one digit, no leading zero except for 0 |
| Utility.NatDigitsRoundTrip | ILPDFKit/PDFUtility.h:53-58 | the digits parse back to the number |
| Utility.IntegerRoundTrip | ILPDFKit/PDFUtility.h:53-58 | the decimal form of any integer, sign included, parses back to that integer |
| Utility.RealText | ILPDFKit/PDFObject.h:90-93 | the decimal form of a real is ASCII and always has a period, so it never reads back as an integer |
| Utility.PdfObjectRepresentationFrom | ILPDFKit/PDFUtility.h:53-58 | a result exists exactly for a string with kind Name or a number with kind Integer; a name is `/` followed by text that decodes to the name's bytes; an integer's text parses back to the integer |
| Objects.ObjectNumber | ILPDFKit/PDFObject.h:30-33 | the object number of the indirect object the value was reached through, 0 for a direct object |
| Objects.IndirectObjectKeepsNumbers | ILPDFKit/PDFObject.h:30-38 | a value other than a name read through `n g R` reports object number n and generation g, those of the first reference of a chain; a value held inline reports generation -1 |
| Objects.IndirectNameCarriesNoNumbers | ILPDFKit/PDFObject.h:15-24 | a name read through `n g R` resolves to the same `PDFName` as a direct one, reporting generation -1 and object number 0 |
| Objects.GenerationNumber | ILPDFKit/PDFObject.h:35-38 | -1 exactly for a direct object, a non-negative generation number otherwise |
| Objects.Resolve | ILPDFKit/PDFObject.h:82-87 | null resolves to nothing and every other kind to an object of the same kind; the class follows the table (Array, Dictionary, Stream, Name, String to NSString, numbers and booleans to NSNumber), except that an indirect string or number becomes a generic object; a resolved object other than a name keeps the numbers of the first indirect object on its path |
| Objects.ResolveKeepsTarget | ILPDFKit/PDFObject.h:82-87 | the primitive held by a resolved object is the target of the resolved primitive, so only the hops of an indirect chain are lost |
| Objects.NamesAndStringsStayApart | ILPDFKit/PDFObject.h:17-18 | a name and a string never resolve to the same object, and their representations start with `/` and `(` respectively |
| Objects.AsDictionary | ILPDFKit/PDFObject.h:11-13 | the dictionary view exists exactly for an object of kind Dictionary, and it is that object's own entries |
| Objects.AsStream | ILPDFKit/PDFObject.h:11-13 | the stream view exists exactly for an object of kind Stream, and it is that object's dictionary, payload and format |
| Objects.SameNumberIsTransitive | ILPDFKit/PDFDictionary.h:132 | two numbers equal in value to a third are equal in value to each other |
| Objects.SameObjectIsEquivalence | ILPDFKit/PDFDictionary.h:132 | the isEqual: test on resolved values is reflexive, symmetric and transitive |
| Objects.NumbersCompareByValue | ILPDFKit/PDFDictionary.h:132 | 1, 1.0, 1.00 and true are equal as NSNumbers; 1 and 1.1 are not, and a number never equals a string |
| Objects.StreamKeepsItsParts | ILPDFKit/PDFStream.h:41-46 | a stream resolves to its dictionary, payload and data format unchanged, and carries generation number -1 when direct or its own when indirect |
| Objects.Text | ILPDFKit/PDFObject.h:90-93 | the PDF syntax of a value is non-empty, and it is ASCII whenever the stream payloads inside the value are |
| Objects.PdfFileRepresentation | ILPDFKit/PDFObject.h:90-93 | the representation of an object is ASCII whenever its stream payloads are |
| Dictionaries.NullEntryIsAbsent | ILPDFKit/PDFDictionary.h:86-91 | storing null under a key gives the same entries as removing the key, so such a dictionary has fewer entries than stored keys |
| Dictionaries.ObjectFor | ILPDFKit/PDFDictionary.h:86-91 | a key has a value exactly when it is an entry, and the value has the kind of the stored primitive |
| Dictionaries.SameContentsIffSameCache | ILPDFKit/PDFDictionary.h:129-134 | two dictionaries compare equal (same count, isEqual: values key by key) exactly when their filled caches have the same keys and isEqual: values under each |
| Dictionaries.SameCacheSameContents | ILPDFKit/PDFDictionary.h:129-134 | dictionaries whose filled caches are identical compare equal |
| Dictionaries.SameContentsIsEquivalence | ILPDFKit/PDFDictionary.h:129-134 | the comparison is reflexive, symmetric and transitive |
| Dictionaries.NumberSpellingDoesNotMatter | ILPDFKit/PDFDictionary.h:129-134 | dictionaries that differ only by holding 1, 1.0 or 1.00 under a key compare equal |
| Dictionaries.ExtraKeyBreaksEquality | ILPDFKit/PDFDictionary.h:129-134 | adding one non-null key makes a dictionary unequal to the original, either way round |
| Dictionaries.PdfDictionary.constructor | ILPDFKit/PDFDictionary.h:43-49 | a new dictionary has no cache yet and no parent |
| Dictionaries.PdfDictionary.Materialize | ILPDFKit/PDFDictionary.h:46 | after the first query the cache holds every entry resolved, and the parent is unchanged |
| Dictionaries.PdfDictionary.ObjectForKey | ILPDFKit/PDFDictionary.h:86-91 | the answer is nothing exactly when the key is not an entry; otherwise it is the backing dictionary's resolved value, so filling the cache changes no answer |
| Dictionaries.PdfDictionary.TypeForKey | ILPDFKit/PDFDictionary.h:56-62 | nothing exactly when the key is not an entry; otherwise the kind of the stored value, which is never null |
| Dictionaries.PdfDictionary.Count | ILPDFKit/PDFDictionary.h:116-120 | the number of entries of the backing dictionary, whether or not the cache has been filled |
| Dictionaries.PdfDictionary.AllKeys | ILPDFKit/PDFDictionary.h:94-99 | every key of the dictionary exactly once, so as many keys as entries and none for an empty dictionary |
| Dictionaries.PdfDictionary.AllValues | ILPDFKit/PDFDictionary.h:102-107 | as many values as entries, each a value the dictionary holds; enumerated with the keys, each key once, every value is the value of its own key |
| Dictionaries.PdfDictionary.IsEqualToDictionary | ILPDFKit/PDFDictionary.h:129-134 | true exactly when both dictionaries have the same count and, key by key, values that pass the isEqual: test (numbers by numeric value) |
| Dictionaries.PdfDictionary.ChildDictionary | ILPDFKit/PDFDictionary.h:31-36 | a key holding a dictionary yields a new dictionary over that value whose parent is this one; any other key yields nothing |
| Forms.Select | ILPDFKit/PDFFormContainer.h:40-71 | a filter returns no more forms than it is given, and only matching ones |
| Forms.SelectExactly | ILPDFKit/PDFFormContainer.h:40-71 | a filter keeps each matching form as many times as it occurs and nothing else, and is empty exactly when nothing matches |
| Forms.FormsWithNameExactly | ILPDFKit/PDFFormContainer.h:40-56 | the forms with a name are exactly those called so, and there are none exactly when no form has the name |
| Forms.FormsWithTypeExactly | ILPDFKit/PDFFormContainer.h:59-71 | the forms with a type are exactly those of that type, and there are none exactly when no form has it |
| Forms.SetGroupValue | ILPDFKit/PDFFormContainer.h:114-118 | setting a group's value keeps every position and gives each form of the group the value, leaving the others as they were |
| Forms.SetValueSyncsGroup | ILPDFKit/PDFFormContainer.h:44-50 | after setting the group to v, the group is the old group with value v, so every member has value v |
| Forms.SetValueIsolatesOtherGroups | ILPDFKit/PDFFormContainer.h:44-54 | setting one group leaves every group of another name exactly as it was |
| Forms.ButtonGroupChecksMatching | ILPDFKit/PDFFormContainer.h:51-54 | after setting a group to x, a button of the group is checked exactly when its export value is x |
| Forms.NoMatchChecksNone | ILPDFKit/PDFFormContainer.h:51-54 | if no member exports x, setting the group to x leaves no member checked |
| Forms.CheckedSiblingsShareExportValue | ILPDFKit/PDFFormContainer.h:51-54 | in a synchronized container two checked buttons of one group have the same export value, which makes the group mutually exclusive |
| Forms.SetValueKeepsSynchronized | ILPDFKit/PDFFormContainer.h:44-50 | setting a value keeps every group holding one value |
| Forms.AddFormJoinsGroup | ILPDFKit/PDFFormContainer.h:79-82 | an added form ends its group, and the groups of other names are unchanged |
| Forms.Joined | ILPDFKit/PDFFormContainer.h:44-50 | the stored form differs from the added one only in its value, which is the value of its group in a synchronized container, and is the form itself when it starts a new group |
| Forms.AddFormKeepsSynchronized | ILPDFKit/PDFFormContainer.h:44-50 | adding a form keeps every group holding one value |
| Forms.RemoveFormKeepsOthers | ILPDFKit/PDFFormContainer.h:84-87 | after removal no form with that identity is left; every other form occurs as often as before, with its value; synchronized groups stay synchronized |
| Forms.FormContainer.constructor | ILPDFKit/PDFFormContainer.h:25-30 | a new container holds the fields found in its parent document and an empty document-value table, and it is synchronized when the fields found are |
| Forms.FormContainer.Matching | ILPDFKit/PDFFormContainer.h:40-71 | the loop collects exactly the filter of the container's forms, in order |
| Forms.FormContainer.FormsWithName | ILPDFKit/PDFFormContainer.h:40-56 | returns the group, whose members are exactly the forms called so |
| Forms.FormContainer.FormsWithType | ILPDFKit/PDFFormContainer.h:59-71 | returns exactly the forms of that type |
| Forms.FormContainer.AddForm | ILPDFKit/PDFFormContainer.h:79-82 | the form is appended with its group's value, the document values are unchanged, and a synchronized container stays synchronized |
| Forms.FormContainer.RemoveForm | ILPDFKit/PDFFormContainer.h:84-87 | every occurrence of the form is removed, nothing else changes, and a synchronized container stays synchronized |
| Forms.FormContainer.SetValue | ILPDFKit/PDFFormContainer.h:114-118 | the loop gives every form of the group the value, leaves the rest of the container unchanged, and keeps a synchronized container synchronized |
| Forms.FormContainer.SetDocumentValue | ILPDFKit/PDFFormContainer.h:136-140 | the table maps the key to the value, and the forms are unchanged |
| Forms.FormContainer.GetDocumentValueForKey | ILPDFKit/PDFFormContainer.h:143-147 | the value stored for the key, or nothing for a key never set |
| Documents.PdfDocument.InitWithData | ILPDFKit/PDFDocument.h:58-64 | a document built from memory has no path and is loaded from the given bytes |
| Documents.PdfDocument.InitWithPath | ILPDFKit/PDFDocument.h:73-78 | a document built from a file keeps that path and is loaded from the file's bytes |
| Documents.PdfDocument.Refresh | ILPDFKit/PDFDocument.h:107-109 | catalog, info, pages and a new form container are rebuilt from the buffer alone, which itself is unchanged, so a second refresh rebuilds the same pages and form values |
| Documents.PdfDocument.NumberOfPages | ILPDFKit/PDFDocument.h:85-89 | the page count of the loaded document equals the length of pages |
| Documents.PdfDocument.SaveFormsToDocumentData | ILPDFKit/PDFDocument.h:99-103 | fails on an unreadable or compressed buffer or an impossible splice and then leaves the buffer untouched; on success the buffer is the spliced one, and it reads back the saved fields when the splice keeps its contract |
| Documents.PdfDocument.WriteToFile | ILPDFKit/PDFDocument.h:113-116 | the bytes written are the buffer as it is; nothing is modified and no form is saved |
| Documents.PdfDocument.CodeForObjectWithNumber | ILPDFKit/PDFDocument.h:125-134 | always the explicit "not implemented" result, never an object body |

## Left out

- `createUIAdditionViewsForSuperviewWithWidth:Margin:HMargin:` and the
  `UIWebViewDelegate` conformance: UI layout with floating-point geometry.
- `executeJS`: the script runs in an external engine. Only the
  document-value table and `setValue` that scripts reach are modelled.
- `formXML` of the container and of the document: the XML layout is not
  visible in the headers.
- `description` of `PDFDictionary` and `PDFStream`: property-list text for
  debugging.
- PDF context and document creation and the URL helpers of `PDFUtility`:
  thin wrappers over CoreGraphics and Foundation.
- `initWithResource`, reading the file in `initWithPath`, and the disk write
  of `writeToFile`: file I/O. The bytes read are a constructor parameter,
  and the bytes written are the method's result.
- The `document` handle (`CGPDFDocumentRef`) and `pdfName`. The handle is
  the `parse` parameter applied to the loaded bytes.
- Parsing a buffer into catalog, info, page tree and form fields, including
  the walk of the field tree: a parameter of the document.
- The byte-span search that `saveFormsToDocumentData` uses to rewrite
  field values: a parameter of the document. Only its success and failure
  contract is modelled.
- `initWithPDFRepresentation:Document:` and
  `createWithPDFRepresentation:Document:`: parsing object text needs the
  parser, which is not part of this model.
- `initWithObjectNumber:GenerationNumber:Document:`: it needs the
  cross-reference lookup that the library does not implement.
- `parentDocument` of `PDFObject` and the weak `document` of the
  container: the container keeps a plain optional reference, and objects
  keep none.
- `PDFArray`, `PDFName`, `PDFPage` and `PDFForm` are not modelled as
  classes: arrays stay sequences of primitives, names are strings, pages
  are their dictionaries, and a form is a record whose `id` stands for the
  instance's identity.
- `NSFastEnumeration`: enumeration is modelled by `AllKeys` and
  `AllValues`.
- Stream filter decoding: the data format is recorded, and the payload is
  never decoded.
- Reals are exact decimals (units and decimal places), not floating-point
  numbers, and are printed without exponent. Integer widths
  (`NSUInteger`, `NSInteger`) are unbounded.
- Objects.Resolve and Objects.IndirectObjectKeepsNumbers: an indirect
  name resolves to a `PDFName` that carries no object or generation
  number, so it reports generation -1 like a direct object. The table at
  the head of `PDFObject.h` makes a name a `PDFName` whether direct or
  not, and only indirect strings and numbers become generic objects that
  keep their numbers.
- Objects.PdfFileRepresentation: proved ASCII only when every stream
  payload inside the object is 7-bit. The payload is written as raw bytes,
  and binary payloads are not ASCII.
- Objects.Text: ASCII under the same condition on stream payloads.
- Utility.PdfObjectRepresentationFrom: returns nothing for strings,
  reals, booleans and every other kind but Name and Integer, and for a
  value that does not match its kind. The Foundation number it takes
  holds an integer only, so the representation of a non-integer number
  is not modelled.
- Utility.StringReplacingWhiteSpaceWithSingleSpace and Utility.Collapse:
  every `%` starts a comment and white space is collapsed everywhere,
  including inside literal strings and stream payloads, where section
  7.2.3 of ISO 32000-1 does not count `%` as a comment. The scan does not
  track string or stream context.
- Dictionaries.PdfDictionary.IsEqualToDictionary: values other than
  numbers pass the isEqual: test exactly when they are identical (same
  contents, kind and numbers). How `PDFObject` subclasses override
  isEqual: is not declared in the headers.
- Forms.FormContainer.constructor: the container is synchronized only if
  the fields found in the document are. The model relies on the file
  holding one value per field for all of its widgets.
- Forms.FormContainer.AddForm: the added form takes the value of its
  group, so that same-named forms keep one value. The header of `addForm:`
  itself does not say how the value is chosen.
- Dictionaries.PdfDictionary.ChildDictionary: returns a new instance on
  each call. The library returns the instance cached in `nsd`, so the
  model does not capture the identity of repeated lookups.
- Dictionaries.PdfDictionary.Materialize: the whole cache is filled on
  the first key query rather than key by key.
- Dictionaries.PdfDictionary.AllKeys and
  Dictionaries.PdfDictionary.AllValues read the backing dictionary and do
  not fill the cache.
- Documents.PdfDocument.Refresh: the idempotence of two refreshes follows
  from its postcondition; no separate lemma states it, because a lemma
  cannot call a method.
