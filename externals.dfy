/**
 * The libraries the reader delegates to, as functions supplied by the
 * caller: the HTML parser, the image decoders, the NCX and package XML
 * decoders, the HTML-to-Markdown converter, URL fragment stripping and the
 * Markdown-plus-diacritics pass applied to descriptions.
 */
module Externals {
  import opened Wrappers
  import Text
  import Html
  import Ncx
  import Pkg

  type Bytes = seq<Text.byte>

  /** A decoded raster image; its pixels are not modelled. */
  datatype Image = Image(format: string, width: nat, height: nat)

  datatype Codecs = Codecs(
    /** `html.Parse` on an in-memory reader: the HTML parsing algorithm
        accepts every input, so it never fails. */
    parseHtml: Bytes -> Html.Node,
    /** `image.Decode`: `None` when no registered format accepts the bytes. */
    decodeImage: Bytes -> Option<Image>,
    /** `ncx.Parse`: `None` on malformed XML. */
    parseNcx: Bytes -> Option<Ncx.NCX>,
    /** `xml.Unmarshal` into a package: the decoded package or the error text. */
    decodePackage: Bytes -> Result<Pkg.Package, string>,
    /** `htmltomarkdown.ConvertNode`, whose argument may be nil. */
    nodeToMarkdown: Option<Html.Node> -> Option<string>,
    /** `url.Parse` followed by clearing the fragment and `String()`; `None`
        when the href does not parse. */
    stripFragment: string -> Option<string>,
    /** `convertDescriptionToMd`: Markdown conversion then removal of
        combining marks. */
    descriptionToText: string -> string)
}
