/**
 * The draw.io flowchart shape names the pipeline knows, and the two tables of
 * default box sizes, in pixels, kept as the strings written into the CSV.
 */
module Shapes {

  /** A box size: width and height. */
  datatype Size = Size(width: string, height: string)

  /** The size used for any shape a table does not list. */
  const DefaultSize := Size("100", "100")

  /**
   * The table of the diagram flatteners, keyed by the shape token of the style
   * (`drawio_xl/drawio_to_xl.py:46-57`, `drawio_to_csv.py:15-26`).
   */
  function DiagramSize(shape: string): (r: Size)
    ensures shape == "terminator" ==> r == Size("100", "50")
    ensures shape in {"process", "data", "predefined_process", "document"} ==> r == Size("200", "100")
    ensures shape !in {"terminator", "process", "data", "predefined_process", "document"} ==> r == DefaultSize
  {
    match shape
    case "process" => Size("200", "100")
    case "decision" => Size("100", "100")
    case "data" => Size("200", "100")
    case "predefined_process" => Size("200", "100")
    case "terminator" => Size("100", "50")
    case "document" => Size("200", "100")
    case "or" => Size("100", "100")
    case "summing_function" => Size("100", "100")
    case "start" => Size("100", "100")
    case _ => DefaultSize
  }

  /**
   * The table of the spreadsheet-to-diagram direction, keyed by the draw.io shape
   * name (`xl_add_height_width.py:16-25`, `xl_to_csv.py:6-15`).
   */
  function SheetSize(shape: string): (r: Size)
    ensures shape == "terminator" ==> r == Size("100", "50")
    ensures shape in {"process", "data", "predefined_process", "document"} ==> r == Size("200", "100")
    ensures shape !in {"terminator", "process", "data", "predefined_process", "document"} ==> r == DefaultSize
  {
    match shape
    case "decision" => Size("100", "100")
    case "process" => Size("200", "100")
    case "or" => Size("100", "100")
    case "start_1" => Size("100", "100")
    case "terminator" => Size("100", "50")
    case "predefined_process" => Size("200", "100")
    case "data" => Size("200", "100")
    case "document" => Size("200", "100")
    case _ => DefaultSize
  }

  /** The two tables give every shape name the same size, although they list different names. */
  lemma SizeTablesAgree(shape: string)
    ensures DiagramSize(shape) == SheetSize(shape)
  {
  }
}
