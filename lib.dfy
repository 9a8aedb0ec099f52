/// Crate-level definitions of the label-printer driver: the packed bitmap type,
/// the two print-head widths and the byte/option helpers shared by every module.
module Lib {

  /** Optional value, the driver's `Option`. */
  datatype Option<+T> = None | Some(value: T)

  /** A packed bitmap: one inner sequence of bytes per raster line. */
  type Matrix = seq<seq<bv8>>

  /** Number of print-head pins (dots per line) of a 62 mm class printer. */
  const NormalPrinterWidth: nat := 720

  /** Number of print-head pins (dots per line) of a 102 mm class printer. */
  const WidePrinterWidth: nat := 1296

  datatype PrinterWidth = Normal | Wide

  /** Pins of a print-head width class; always a whole number of bytes. */
  function ToInt(w: PrinterWidth): (r: nat)
    ensures r == NormalPrinterWidth <==> w == Normal
    ensures r == WidePrinterWidth <==> w == Wide
    ensures r % 8 == 0 && r / 8 == (if w == Normal then 90 else 162)
  {
    match w
    case Normal => 720
    case Wide => 1296
  }
}
