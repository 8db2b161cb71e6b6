/**
 The drawing surface `_txt_to_pdf` writes on (a reportlab `Canvas`), reduced
 to what the converter observes: the pages finished so far, the lines drawn
 on the open page, the current font, and whether the open page has any
 content-stream code yet. Fonts, glyphs and the file format are not modelled.
 */
module Pdf {

  datatype Font = Font(name: string, size: int)

  /** The font a fresh page starts with (reportlab's default). */
  const InitialFont := Font("Helvetica", 12)

  /** One `drawString(x, y, text)` call, with the font in force at the time. */
  datatype Line = Line(x: int, y: int, text: string, font: Font)

  type Page = seq<Line>

  /** A saved document: its pages in order. */
  type Document = seq<Page>

  class Canvas {
    var pages: seq<Page>
    var current: Page
    var font: Font
    /** Whether the open page has content-stream code, which makes `save()` emit it. */
    var dirty: bool

    constructor ()
      ensures pages == [] && current == [] && font == InitialFont && !dirty
    {
      pages, current, font, dirty := [], [], InitialFont, false;
    }

    /** `setFont(name, size)`: selecting a font writes code onto the open page. */
    method SetFont(f: Font)
      modifies this
      ensures font == f && dirty
      ensures pages == old(pages) && current == old(current)
    {
      font, dirty := f, true;
    }

    /** `drawString(x, y, text)` adds one line to the open page in the current font. */
    method DrawString(x: int, y: int, text: string)
      modifies this
      ensures current == old(current) + [Line(x, y, text, old(font))]
      ensures pages == old(pages) && font == old(font) && dirty
    {
      current := current + [Line(x, y, text, font)];
      dirty := true;
    }

    /** `showPage()` closes the open page and starts an empty one in the default font. */
    method ShowPage()
      modifies this
      ensures pages == old(pages) + [old(current)]
      ensures current == [] && font == InitialFont && !dirty
    {
      pages := pages + [current];
      current, font, dirty := [], InitialFont, false;
    }

    /** `save()` closes the open page first when it has any code, then yields the document. */
    method Save() returns (doc: Document)
      modifies this
      ensures doc == if old(dirty) then old(pages) + [old(current)] else old(pages)
      ensures doc == pages
      ensures old(dirty) ==> current == [] && font == InitialFont
      ensures !old(dirty) ==> current == old(current) && font == old(font)
      ensures !dirty
    {
      if dirty {
        ShowPage();
      }
      doc := pages;
    }
  }
}
