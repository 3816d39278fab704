/**
 * The values handed back by the underlying PDF parser (CoreGraphics'
 * CGPDFObjectRef and friends). The model never parses a file: a document's
 * bytes are turned into these values by a parser that is a parameter of
 * the document (see module Documents).
 */
module Primitives {

  /** CGPDFObjectType: the nine kinds of PDF object the parser distinguishes. */
  datatype Kind = Null | Boolean | Integer | Real | Name | String | Array | Dictionary | Stream

  /** An octet of a file or a stream. */
  newtype byte = x: int | 0 <= x < 256

  /** CGPDFDataFormat: how the bytes of a stream are to be interpreted. */
  datatype DataFormat = Raw | JpegEncoded | Jpeg2000

  /**
   * One parsed PDF object. A real number is kept as the decimal it is
   * written as in the file: units / 10^places (section 7.3.3 of ISO 32000-1).
   * PIndirect is an indirect object "n g obj ... endobj" together with the
   * object it stands for.
   */
  datatype Primitive =
    | PNull
    | PBoolean(b: bool)
    | PInteger(i: int)
    | PReal(units: int, places: nat)
    | PName(name: string)
    | PString(text: string)
    | PArray(items: seq<Primitive>)
    | PDictionary(entries: map<string, Primitive>)
    | PStream(dictionary: map<string, Primitive>, data: seq<byte>, format: DataFormat)
    | PIndirect(number: nat, generation: nat, target: Primitive)

  /** The CGPDFObjectType of a primitive; an indirect object has the kind of its target. */
  function KindOf(p: Primitive): Kind
  {
    match p
    case PNull => Null
    case PBoolean(_) => Boolean
    case PInteger(_) => Integer
    case PReal(_, _) => Real
    case PName(_) => Name
    case PString(_) => String
    case PArray(_) => Array
    case PDictionary(_) => Dictionary
    case PStream(_, _, _) => Stream
    case PIndirect(_, _, t) => KindOf(t)
  }

  /** The object an indirect object finally stands for, after every hop. */
  function Target(p: Primitive): (t: Primitive)
    ensures !t.PIndirect?
    ensures KindOf(t) == KindOf(p)
  {
    if p.PIndirect? then Target(p.target) else p
  }
}
