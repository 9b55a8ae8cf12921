/** The flowables the report generator builds, reduced to what the parsers
    and the report layout decide: the style of each `Paragraph` and its
    markup, the `Spacer` after a paragraph, the `PageBreak` between
    sections and the survey `Table` with its rows of cells. Sizes, fonts
    and colours are not modelled. */
module ReportItems {

  /** The paragraph styles: `h1`, `h2`, the bold `H3_bold`, `BoldBody`,
      `BodyText`, the centred table `Header`, `Normal` and `Italic`. */
  datatype Style = Heading1 | Heading2 | Heading3 | BoldBody | Body | HeaderCell | Normal | Italic

  datatype Item =
    | Para(style: Style, markup: string)
    | Spacer
    | PageBreak
    | Table(rows: seq<seq<Item>>)

  /** One table row: a paragraph of the given style per cell. */
  function RowOf(cells: seq<string>, style: Style): (r: seq<Item>)
    ensures |r| == |cells|
    ensures forall i :: 0 <= i < |cells| ==> r[i] == Para(style, cells[i])
  {
    seq(|cells|, i requires 0 <= i < |cells| => Para(style, cells[i]))
  }
}
