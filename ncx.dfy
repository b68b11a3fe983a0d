/** The parsed legacy navigation document (NCX, ANSI/NISO Z39.86-2005) that the library reads. */
module Ncx {

  datatype NavPoint = NavPoint(id: string, playOrder: string, navLabel: string, src: string, children: seq<NavPoint>)

  datatype NCX = NCX(docTitle: string, docAuthor: string, navPoints: seq<NavPoint>)
}
