/**
 * The package document (OPF) records as the XML decoder fills them, the
 * media-type and property constants, and the closed enumeration of guide
 * reference types with its text (un)marshalling.
 */
module Pkg {
  import opened Wrappers
  import Text

  const MediaTypeXHTML := "application/xhtml+xml"
  const MediaTypeSVG := "image/svg+xml"
  const MediaTypeJPEG := "image/jpeg"
  const MediaTypeGIF := "image/gif"
  const MediaTypeWebP := "image/webp"
  const MediaTypePNG := "image/png"
  const MediaTypeCSS := "text/css"
  const MediaTypeNCX := "application/x-dtbncx+xml"

  const PropertyNav := "nav"
  const PropertyCoverImage := "cover-image"

  /** A Dublin Core element (`dc:identifier`, `dc:title`, `dc:language` or any
      other element of the metadata block): its local name, `id` and text. */
  datatype DCElement = DCElement(name: string, id: string, value: string)

  /** A `meta` element. */
  datatype Meta = Meta(name: string, content: string, id: string, property: string, refinesRef: string, value: string)

  datatype Metadata = Metadata(
    identifiers: seq<DCElement>,
    titles: seq<DCElement>,
    languages: seq<DCElement>,
    optional: seq<DCElement>,
    metas: seq<Meta>)

  datatype Item = Item(id: string, href: string, mediaType: string, properties: string)

  datatype Manifest = Manifest(items: seq<Item>)

  datatype ItemRef = ItemRef(idref: string, linear: string, properties: string)

  datatype Spine = Spine(toc: string, itemRefs: seq<ItemRef>)

  /** The guide reference types; `Unset` is the zero value `""`, which a
      reference without a `type` attribute keeps (no unmarshalling runs). */
  datatype GuideReferenceType =
    | Unset | Cover | TitlePage | Toc | Index | Glossary | Acknowledgements | Bibliography
    | Colophon | CopyrightPage | Dedication | Epigraph | Foreword | Loi | Lot
    | Notes | Preface | Text

  datatype GuideReference = GuideReference(kind: GuideReferenceType, title: string, href: string)

  datatype Guide = Guide(references: seq<GuideReference>)

  /** The package; `guide` is `None` when the document has no guide element. */
  datatype Package = Package(
    version: string,
    uniqueIdentifier: string,
    metadata: Metadata,
    manifest: Manifest,
    spine: Spine,
    guide: Option<Guide>)

  /** The string value of each guide reference type. */
  function TypeName(t: GuideReferenceType): string {
    match t
    case Unset => ""
    case Cover => "cover"
    case TitlePage => "title-page"
    case Toc => "toc"
    case Index => "index"
    case Glossary => "glossary"
    case Acknowledgements => "acknowledgements"
    case Bibliography => "bibliography"
    case Colophon => "colophon"
    case CopyrightPage => "copyright-page"
    case Dedication => "dedication"
    case Epigraph => "epigraph"
    case Foreword => "foreword"
    case Loi => "loi"
    case Lot => "lot"
    case Notes => "notes"
    case Preface => "preface"
    case Text => "text"
  }

  lemma TypeNameAscii(t: GuideReferenceType)
    ensures forall i :: 0 <= i < |TypeName(t)| ==> TypeName(t)[i] as int < 128
  {
  }

  /** The bytes read as a string, one rune per byte; equal to a Go string
      conversion wherever the bytes are ASCII. */
  function Latin1(text: seq<Text.byte>): (s: string)
    ensures |s| == |text|
    ensures forall i :: 0 <= i < |text| ==> s[i] as int == text[i] as int
  {
    seq(|text|, i requires 0 <= i < |text| => text[i] as int as char)
  }

  datatype EnumError = InvalidEnumValue(text: seq<Text.byte>)

  /** `MarshalText`: the type's string as bytes. */
  function MarshalText(t: GuideReferenceType): (b: seq<Text.byte>)
    ensures |b| == |TypeName(t)|
  {
    TypeNameAscii(t);
    Text.Ascii(TypeName(t))
  }

  /** The type whose string is `s`, if any. */
  function TypeOfName(s: string): Option<GuideReferenceType> {
    if s == "cover" then Some(Cover)
    else if s == "title-page" then Some(TitlePage)
    else if s == "toc" then Some(Toc)
    else if s == "index" then Some(Index)
    else if s == "glossary" then Some(Glossary)
    else if s == "acknowledgements" then Some(Acknowledgements)
    else if s == "bibliography" then Some(Bibliography)
    else if s == "colophon" then Some(Colophon)
    else if s == "copyright-page" then Some(CopyrightPage)
    else if s == "dedication" then Some(Dedication)
    else if s == "epigraph" then Some(Epigraph)
    else if s == "foreword" then Some(Foreword)
    else if s == "loi" then Some(Loi)
    else if s == "lot" then Some(Lot)
    else if s == "notes" then Some(Notes)
    else if s == "preface" then Some(Preface)
    else if s == "text" then Some(Text)
    else None
  }

  /** `UnmarshalText`: the type whose string the bytes spell, or an
      "invalid enum value" error carrying the bytes. */
  function UnmarshalText(text: seq<Text.byte>): Result<GuideReferenceType, EnumError> {
    var t := TypeOfName(Latin1(text));
    if t.Some? then Ok(t.value) else Err(InvalidEnumValue(text))
  }

  lemma Latin1OfMarshal(t: GuideReferenceType)
    ensures Latin1(MarshalText(t)) == TypeName(t)
  {
  }

  /** Unmarshalling the marshalled form gives the same constant back, for
      each of the seventeen named types; the zero value's empty form is
      rejected. */
  lemma UnmarshalMarshal(t: GuideReferenceType)
    ensures UnmarshalText(MarshalText(t)) == if t == Unset then Err(InvalidEnumValue([])) else Ok(t)
  {
    Latin1OfMarshal(t);
    TypeOfNameComplete(t);
  }

  /** Every named type is found under its own string; the empty string
      names none. */
  lemma TypeOfNameComplete(t: GuideReferenceType)
    ensures TypeOfName(TypeName(t)) == if t == Unset then None else Some(t)
  {
    match t
    case Unset =>
    case Cover =>
    case TitlePage =>
    case Toc =>
    case Index =>
    case Glossary =>
    case Acknowledgements =>
    case Bibliography =>
    case Colophon =>
    case CopyrightPage =>
    case Dedication =>
    case Epigraph =>
    case Foreword =>
    case Loi =>
    case Lot =>
    case Notes =>
    case Preface =>
    case Text =>
  }

  /** Exactly the seventeen marshalled forms are accepted, never as the zero
      value; anything else is an error naming the input. */
  lemma UnmarshalAccepts(text: seq<Text.byte>)
    ensures UnmarshalText(text).Ok? ==> UnmarshalText(text).value != Unset && MarshalText(UnmarshalText(text).value) == text
    ensures UnmarshalText(text).Err? ==>
              (UnmarshalText(text).error == InvalidEnumValue(text) && forall t :: t != Unset ==> MarshalText(t) != text)
  {
    var r := UnmarshalText(text);
    if r.Ok? {
      UnmarshalName(text);
      Latin1OfMarshal(r.value);
      Latin1Injective(MarshalText(r.value), text);
    } else {
      forall t | t != Unset ensures MarshalText(t) != text {
        if MarshalText(t) == text {
          UnmarshalMarshal(t);
        }
      }
    }
  }

  /** An accepted input spells the name of the type it gives. */
  lemma UnmarshalName(text: seq<Text.byte>)
    ensures UnmarshalText(text).Ok? ==> TypeName(UnmarshalText(text).value) == Latin1(text)
  {
    TypeOfNameSound(Latin1(text));
  }

  lemma TypeOfNameSound(s: string)
    ensures TypeOfName(s).Some? ==> TypeName(TypeOfName(s).value) == s
  {
  }

  lemma Latin1Injective(a: seq<Text.byte>, b: seq<Text.byte>)
    requires Latin1(a) == Latin1(b)
    ensures a == b
  {
    assert |a| == |b|;
    forall i | 0 <= i < |a| ensures a[i] == b[i] {
      assert Latin1(a)[i] == Latin1(b)[i];
    }
  }

  /** Distinct types marshal to distinct bytes. */
  lemma MarshalInjective(t: GuideReferenceType, u: GuideReferenceType)
    requires MarshalText(t) == MarshalText(u)
    ensures t == u
  {
    UnmarshalMarshal(t);
    UnmarshalMarshal(u);
  }
}
