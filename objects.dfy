/**
 * PDFObject and PDFStream: what a parsed primitive becomes once resolved.
 * The class hierarchy of the kit (PDFArray, PDFDictionary, PDFStream,
 * PDFName under the abstract PDFObject, plus the Foundation classes
 * NSString and NSNumber) is one tagged variant; every value is one of its
 * concrete cases, so there is no bare base instance.
 */
module Objects {
  import opened Wrappers
  import opened Primitives
  import opened Utility

  /** How an object is reached: inline inside another object, or as the
      indirect object "number generation obj" of the file. */
  datatype ObjRef = Direct | Indirect(number: nat, generation: nat)

  /** PDFStream: exactly a stream dictionary and a payload, the payload
      always paired with the format that says how to read it. */
  datatype StreamContent = StreamContent(dictionary: map<string, Primitive>, data: seq<byte>, dataFormat: DataFormat)

  /** What an NSNumber holds. */
  datatype Number = IntegerNumber(i: int) | RealNumber(units: int, places: nat) | BooleanNumber(b: bool)

  datatype PdfObject =
    | NumberObject(number: Number)                                      // NSNumber
    | NameObject(name: string)                                          // PDFName
    | StringObject(text: string)                                        // NSString
    | GenericObject(primitive: Primitive, ref: ObjRef)                  // PDFObject: an indirect string or number
    | ArrayObject(items: seq<Primitive>, ref: ObjRef)                   // PDFArray
    | DictionaryObject(entries: map<string, Primitive>, ref: ObjRef)    // PDFDictionary
    | StreamObject(stream: StreamContent, ref: ObjRef)                  // PDFStream

  /** The Objective-C class an object is an instance of. */
  datatype ObjCClass = PDFArray | PDFDictionary | PDFStream | PDFName | NSString | NSNumber | PDFObject

  function ClassOf(o: PdfObject): ObjCClass
  {
    match o
    case NumberObject(_) => NSNumber
    case NameObject(_) => PDFName
    case StringObject(_) => NSString
    case GenericObject(_, _) => PDFObject
    case ArrayObject(_, _) => PDFArray
    case DictionaryObject(_, _) => PDFDictionary
    case StreamObject(_, _) => PDFStream
  }

  /** The table at the head of PDFObject.h: the class a directly held
      object of each kind becomes. Null becomes nil. */
  function TableClass(k: Kind): Option<ObjCClass>
  {
    match k
    case Null => None
    case Boolean => Some(NSNumber)
    case Integer => Some(NSNumber)
    case Real => Some(NSNumber)
    case Name => Some(PDFName)
    case String => Some(NSString)
    case Array => Some(PDFArray)
    case Dictionary => Some(PDFDictionary)
    case Stream => Some(PDFStream)
  }

  /** Strings and numbers are the kinds that become a generic PDFObject
      when they are indirect objects. */
  predicate IsStringOrNumber(k: Kind)
  {
    k == Boolean || k == Integer || k == Real || k == String
  }

  /** The CGPDFObjectType an object was resolved from. */
  function KindOfObject(o: PdfObject): Kind
  {
    match o
    case NumberObject(IntegerNumber(_)) => Integer
    case NumberObject(RealNumber(_, _)) => Real
    case NumberObject(BooleanNumber(_)) => Boolean
    case NameObject(_) => Name
    case StringObject(_) => String
    case GenericObject(p, _) => KindOf(p)
    case ArrayObject(_, _) => Array
    case DictionaryObject(_, _) => Dictionary
    case StreamObject(_, _) => Stream
  }

  /** A generic PDFObject only ever stands for an indirect string or number. */
  predicate WellFormed(o: PdfObject)
  {
    o.GenericObject? ==>
      o.ref.Indirect? && !o.primitive.PIndirect? && IsStringOrNumber(KindOf(o.primitive))
  }

  /** The reference an object carries; Foundation values and names carry none. */
  function RefOf(o: PdfObject): ObjRef
  {
    match o
    case NumberObject(_) => Direct
    case NameObject(_) => Direct
    case StringObject(_) => Direct
    case GenericObject(_, r) => r
    case ArrayObject(_, r) => r
    case DictionaryObject(_, r) => r
    case StreamObject(_, r) => r
  }

  /** objectNumber: meaningful for an indirect object only (0 otherwise). */
  function ObjectNumber(o: PdfObject): (n: nat)
    ensures RefOf(o).Indirect? ==> n == RefOf(o).number
    ensures RefOf(o).Direct? ==> n == 0
  {
    if RefOf(o).Indirect? then RefOf(o).number else 0
  }

  /** generationNumber: that of the indirect object, else -1. */
  function GenerationNumber(o: PdfObject): (g: int)
    ensures g == -1 <==> RefOf(o).Direct?
    ensures g >= -1
  {
    if RefOf(o).Indirect? then RefOf(o).generation else -1
  }

  /** The reference a resolution ends up with: the first indirect object
      met on the way keeps its numbers, however many hops follow. */
  function OuterRef(p: Primitive, ref: ObjRef): ObjRef
  {
    if ref.Indirect? then ref
    else if p.PIndirect? then Indirect(p.number, p.generation)
    else Direct
  }

  /** A string or number is a Foundation value when direct and a generic
      PDFObject keeping its numbers when indirect. */
  function Scalar(direct: PdfObject, p: Primitive, ref: ObjRef): PdfObject
  {
    if ref.Direct? then direct else GenericObject(p, ref)
  }

  /** The class a value of kind k reached through ref becomes. */
  function ExpectedClass(k: Kind, ref: ObjRef): ObjCClass
    requires k != Null
  {
    if ref.Indirect? && IsStringOrNumber(k) then PDFObject else TableClass(k).value
  }

  /** Resolution of a primitive reached through ref (initWithPDFObject). */
  function Resolve(p: Primitive, ref: ObjRef): (r: Option<PdfObject>)
    ensures r.None? <==> KindOf(p) == Null
    ensures r.Some? ==> WellFormed(r.value)
    ensures r.Some? ==> KindOfObject(r.value) == KindOf(p)
    ensures r.Some? && KindOf(p) != Name ==> RefOf(r.value) == OuterRef(p, ref)
    ensures r.Some? ==> ClassOf(r.value) == ExpectedClass(KindOf(p), OuterRef(p, ref))
    decreases p
  {
    match p
    case PNull => None
    case PBoolean(b) => Some(Scalar(NumberObject(BooleanNumber(b)), p, ref))
    case PInteger(i) => Some(Scalar(NumberObject(IntegerNumber(i)), p, ref))
    case PReal(u, n) => Some(Scalar(NumberObject(RealNumber(u, n)), p, ref))
    case PName(s) => Some(NameObject(s))
    case PString(s) => Some(Scalar(StringObject(s), p, ref))
    case PArray(items) => Some(ArrayObject(items, ref))
    case PDictionary(m) => Some(DictionaryObject(m, ref))
    case PStream(d, data, f) => Some(StreamObject(StreamContent(d, data, f), ref))
    case PIndirect(n, g, t) => Resolve(t, if ref.Direct? then Indirect(n, g) else ref)
  }

  // ---------------------------------------------------------------------
  // isEqual: on resolved values
  // ---------------------------------------------------------------------

  function Pow10(n: nat): (r: nat)
    ensures r >= 1
  {
    if n == 0 then 1 else 10 * Pow10(n - 1)
  }

  /** The value of an NSNumber as units / 10^places; a boolean counts as
      0 or 1, as NSNumber compares it. */
  function Units(n: Number): int
  {
    match n
    case IntegerNumber(i) => i
    case RealNumber(u, _) => u
    case BooleanNumber(b) => if b then 1 else 0
  }

  function Places(n: Number): nat
  {
    if n.RealNumber? then n.places else 0
  }

  /** Two NSNumbers are isEqual: when they stand for the same numeric
      value, whatever their spelling (1, 1.0 and 1.00 are one value). */
  predicate SameNumber(a: Number, b: Number)
  {
    Units(a) * Pow10(Places(b)) == Units(b) * Pow10(Places(a))
  }

  /** isEqual: numbers compare by value, every other object by its
      contents, its kind and its numbers. */
  predicate SameObject(a: PdfObject, b: PdfObject)
  {
    if a.NumberObject? && b.NumberObject? then SameNumber(a.number, b.number) else a == b
  }

  /** Cross-multiplied equality of fractions is transitive. */
  lemma CrossMultiply(ua: int, ub: int, uc: int, pa: int, pb: int, pc: int)
    requires pb > 0
    requires ua * pb == ub * pa && ub * pc == uc * pb
    ensures ua * pc == uc * pa
  {
    var x := ua * pc - uc * pa;
    assert x * pb == (ua * pb) * pc - (uc * pb) * pa;
    assert x * pb == (ub * pa) * pc - (ub * pc) * pa;
    assert x * pb == 0;
  }

  lemma SameNumberIsTransitive(a: Number, b: Number, c: Number)
    requires SameNumber(a, b) && SameNumber(b, c)
    ensures SameNumber(a, c)
  {
    CrossMultiply(Units(a), Units(b), Units(c), Pow10(Places(a)), Pow10(Places(b)), Pow10(Places(c)));
  }

  /** isEqual: is an equivalence: reflexive, symmetric and transitive. */
  lemma SameObjectIsEquivalence(a: PdfObject, b: PdfObject, c: PdfObject)
    ensures SameObject(a, a)
    ensures SameObject(a, b) <==> SameObject(b, a)
    ensures SameObject(a, b) && SameObject(b, c) ==> SameObject(a, c)
  {
    if SameObject(a, b) && SameObject(b, c) && a.NumberObject? && b.NumberObject? && c.NumberObject? {
      SameNumberIsTransitive(a.number, b.number, c.number);
    }
  }

  /** Spelling does not matter: 1, 1.0, 1.00 and true are one value, 1
      and 1.1 are not, and a number is never equal to a string. */
  lemma NumbersCompareByValue()
    ensures SameObject(NumberObject(IntegerNumber(1)), NumberObject(RealNumber(10, 1)))
    ensures SameObject(NumberObject(RealNumber(10, 1)), NumberObject(RealNumber(100, 2)))
    ensures SameObject(NumberObject(BooleanNumber(true)), NumberObject(IntegerNumber(1)))
    ensures !SameObject(NumberObject(IntegerNumber(1)), NumberObject(RealNumber(11, 1)))
    ensures !SameObject(NumberObject(IntegerNumber(1)), StringObject("1"))
  {
    assert Pow10(1) == 10;
    assert Pow10(2) == 100;
  }

  /** The primitive an object holds: the inverse of resolution. */
  function PrimitiveOf(o: PdfObject): Primitive
  {
    match o
    case NumberObject(IntegerNumber(i)) => PInteger(i)
    case NumberObject(RealNumber(u, n)) => PReal(u, n)
    case NumberObject(BooleanNumber(b)) => PBoolean(b)
    case NameObject(s) => PName(s)
    case StringObject(s) => PString(s)
    case GenericObject(p, _) => p
    case ArrayObject(items, _) => PArray(items)
    case DictionaryObject(m, _) => PDictionary(m)
    case StreamObject(s, _) => PStream(s.dictionary, s.data, s.dataFormat)
  }

  /** An object read through "n g R" reports n and g as its numbers, those
      of the first reference when references are chained; an object held
      inline reports generation -1. Names carry no numbers. */
  lemma {:induction false} IndirectObjectKeepsNumbers(n: nat, g: nat, t: Primitive)
    requires KindOf(t) != Null && KindOf(t) != Name
    ensures Resolve(PIndirect(n, g, t), Direct).Some?
    ensures ObjectNumber(Resolve(PIndirect(n, g, t), Direct).value) == n
    ensures GenerationNumber(Resolve(PIndirect(n, g, t), Direct).value) == g
    ensures !t.PIndirect? ==> GenerationNumber(Resolve(t, Direct).value) == -1
  {
    assert KindOf(PIndirect(n, g, t)) == KindOf(t);
    assert OuterRef(PIndirect(n, g, t), Direct) == Indirect(n, g);
  }

  /** A name stays a PDFName even when it is an indirect object, and a
      PDFName carries no numbers. */
  lemma IndirectNameCarriesNoNumbers(n: nat, g: nat, s: string)
    ensures Resolve(PIndirect(n, g, PName(s)), Direct) == Some(NameObject(s))
    ensures GenerationNumber(NameObject(s)) == -1 && ObjectNumber(NameObject(s)) == 0
  {
  }

  /** Resolution loses nothing but the intermediate hops of an indirect chain. */
  lemma {:induction false} ResolveKeepsTarget(p: Primitive, ref: ObjRef)
    requires KindOf(p) != Null
    ensures PrimitiveOf(Resolve(p, ref).value) == Target(p)
    decreases p
  {
    if p.PIndirect? {
      ResolveKeepsTarget(p.target, if ref.Direct? then Indirect(p.number, p.generation) else ref);
    }
  }

  /** A name and a string never resolve to the same value, and their file
      representations start differently ('/' against '('). */
  lemma NamesAndStringsStayApart(a: string, b: string, r1: ObjRef, r2: ObjRef)
    ensures Resolve(PName(a), r1) != Resolve(PString(b), r2)
    ensures Text(PName(a))[0] == '/' && Text(PString(b))[0] == '('
  {
  }

  /** A view returns nothing when the object is of another kind, and the
      object's own entries when it is a dictionary. */
  function AsDictionary(o: PdfObject): (r: Option<map<string, Primitive>>)
    requires WellFormed(o)
    ensures r.Some? <==> KindOfObject(o) == Dictionary
    ensures r.Some? ==> PrimitiveOf(o) == PDictionary(r.value)
  {
    if o.DictionaryObject? then Some(o.entries) else None
  }

  function AsStream(o: PdfObject): (r: Option<StreamContent>)
    requires WellFormed(o)
    ensures r.Some? <==> KindOfObject(o) == Stream
    ensures r.Some? ==> PrimitiveOf(o) == PStream(r.value.dictionary, r.value.data, r.value.dataFormat)
  {
    if o.StreamObject? then Some(o.stream) else None
  }

  /** initWithStream: a stream keeps its dictionary, payload and format
      together, and carries numbers like any object. */
  lemma StreamKeepsItsParts(d: map<string, Primitive>, data: seq<byte>, f: DataFormat, ref: ObjRef)
    ensures Resolve(PStream(d, data, f), ref).Some?
    ensures AsStream(Resolve(PStream(d, data, f), ref).value) == Some(StreamContent(d, data, f))
    ensures GenerationNumber(Resolve(PStream(d, data, f), ref).value) == if ref.Direct? then -1 else ref.generation
  {
  }

  // ---------------------------------------------------------------------
  // pdfFileRepresentation
  // ---------------------------------------------------------------------

  /** No stream payload below p holds a byte outside 7-bit ASCII. */
  ghost predicate SevenBitPayloads(p: Primitive)
    decreases p
  {
    match p
    case PArray(items) => forall i :: 0 <= i < |items| ==> SevenBitPayloads(items[i])
    case PDictionary(m) => forall k :: k in m ==> SevenBitPayloads(m[k])
    case PStream(d, data, _) =>
      && (forall i :: 0 <= i < |data| ==> data[i] < 0x80)
      && (forall k :: k in d ==> SevenBitPayloads(d[k]))
    case _ => true
  }

  function BytesText(data: seq<byte>): (r: string)
    ensures |r| == |data|
    ensures forall i :: 0 <= i < |r| ==> r[i] as int == data[i] as int
  {
    seq(|data|, i requires 0 <= i < |data| => data[i] as int as char)
  }

  /** The PDF syntax of a primitive (section 7.3 of ISO 32000-1); an
      indirect object inside another object is written as a reference "n g R". */
  ghost function Text(p: Primitive): (r: string)
    ensures SevenBitPayloads(p) ==> IsAscii(r)
    ensures |r| > 0
    decreases p
  {
    match p
    case PNull => "null"
    case PBoolean(b) => if b then "true" else "false"
    case PInteger(i) => IntegerText(i)
    case PReal(u, n) => RealText(u, n)
    case PName(s) => NameText(s)
    case PString(s) => LiteralText(s)
    case PArray(items) => ArrayText(items, p)
    case PDictionary(m) => DictionaryText(m, p)
    case PStream(d, data, _) => StreamText(d, data, p)
    case PIndirect(n, g, _) => ReferenceText(n, g)
  }

  /** A name: '/' and its escaped characters (section 7.3.5). */
  function NameText(s: string): (r: string)
    ensures IsAscii(r) && |r| > 0
  {
    AsciiConcat("/", PdfEncodedString(s));
    "/" + PdfEncodedString(s)
  }

  /** A literal string in parentheses (section 7.3.4). */
  function LiteralText(s: string): (r: string)
    ensures IsAscii(r) && |r| > 0
  {
    AsciiConcat("(", EscapeLiteral(s));
    AsciiConcat("(" + EscapeLiteral(s), ")");
    "(" + EscapeLiteral(s) + ")"
  }

  /** An indirect reference "n g R" (section 7.3.10). */
  function ReferenceText(n: nat, g: nat): (r: string)
    ensures IsAscii(r) && |r| > 0
  {
    var number, generation := NatDigits(n), NatDigits(g);
    assert IsAscii(number) && IsAscii(generation);
    AsciiConcat(number, " ");
    AsciiConcat(number + " ", generation);
    AsciiConcat(number + " " + generation, " R");
    number + " " + generation + " R"
  }

  ghost function ArrayText(items: seq<Primitive>, parent: Primitive): (r: string)
    requires forall i :: 0 <= i < |items| ==> items[i] < parent
    ensures (forall i :: 0 <= i < |items| ==> SevenBitPayloads(items[i])) ==> IsAscii(r)
    ensures |r| > 0
    decreases parent, |items|, 1
  {
    var inner := ItemsText(items, parent);
    AsciiConcat("[", inner);
    AsciiConcat("[" + inner, "]");
    "[" + inner + "]"
  }

  ghost function StreamText(d: map<string, Primitive>, data: seq<byte>, parent: Primitive): (r: string)
    requires forall k :: k in d ==> d[k] < parent
    ensures (forall k :: k in d ==> SevenBitPayloads(d[k])) && (forall i :: 0 <= i < |data| ==> data[i] < 0x80) ==>
      IsAscii(r)
    ensures |r| > 0
    decreases parent, |d|, 2
  {
    var head, payload := DictionaryText(d, parent) + "\nstream\n", BytesText(data);
    AsciiConcat(DictionaryText(d, parent), "\nstream\n");
    AsciiConcat(head, payload);
    AsciiConcat(head + payload, "\nendstream");
    head + payload + "\nendstream"
  }

  ghost function ItemsText(items: seq<Primitive>, parent: Primitive): (r: string)
    requires forall i :: 0 <= i < |items| ==> items[i] < parent
    ensures (forall i :: 0 <= i < |items| ==> SevenBitPayloads(items[i])) ==> IsAscii(r)
    decreases parent, |items|, 0
  {
    if items == [] then ""
    else if |items| == 1 then Text(items[0])
    else Text(items[0]) + " " + ItemsText(items[1..], parent)
  }

  ghost function DictionaryText(m: map<string, Primitive>, parent: Primitive): (r: string)
    requires forall k :: k in m ==> m[k] < parent
    ensures (forall k :: k in m ==> SevenBitPayloads(m[k])) ==> IsAscii(r)
    ensures |r| > 0
    decreases parent, |m|, 1
  {
    "<<" + EntriesText(m, parent) + " >>"
  }

  /** The entries of a dictionary, each as " /Key value", in some order. */
  ghost function EntriesText(m: map<string, Primitive>, parent: Primitive): (r: string)
    requires forall k :: k in m ==> m[k] < parent
    ensures (forall k :: k in m ==> SevenBitPayloads(m[k])) ==> IsAscii(r)
    decreases parent, |m|, 0
  {
    if m == map[] then ""
    else
      var k :| k in m;
      var entry, rest := EntryText(k, m[k], parent), EntriesText(m - {k}, parent);
      AsciiConcat(entry, rest);
      entry + rest
  }

  /** One entry " /Key value". */
  ghost function EntryText(k: string, v: Primitive, parent: Primitive): (r: string)
    requires v < parent
    ensures SevenBitPayloads(v) ==> IsAscii(r)
    decreases parent, 0, 0
  {
    var key := " /" + PdfEncodedString(k) + " ";
    AsciiConcat(" /", PdfEncodedString(k));
    AsciiConcat(" /" + PdfEncodedString(k), " ");
    AsciiConcat(key, Text(v));
    key + Text(v)
  }

  /** pdfFileRepresentation: the PDF syntax of the object's value. It is
      ASCII whenever its stream payloads are. */
  ghost function PdfFileRepresentation(o: PdfObject): (r: string)
    ensures SevenBitPayloads(PrimitiveOf(o)) ==> IsAscii(r)
  {
    Text(PrimitiveOf(o))
  }
}
