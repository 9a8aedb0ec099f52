/// The printer-model table: names, status codes, USB product ids, head widths.
module Models {
  import opened Lib

  datatype Model =
    | QL500 | QL550 | QL560 | QL570 | QL580N | QL600 | QL650TD | QL700 | QL710W
    | QL720NW | QL800 | QL810W | QL820NWB | QL1050 | QL1060N | QL1100
    | QL1110NWB | QL1115NWB

  /** The eight models the driver can name, decode and find on the bus. */
  predicate Supported(m: Model)
  {
    m in {QL600, QL720NW, QL800, QL810W, QL820NWB, QL1100, QL1110NWB, QL1115NWB}
  }

  /** The status-reply model codes the driver knows. */
  predicate IsModelCode(code: bv8)
  {
    code in {0x47, 0x37, 0x38, 0x39, 0x41, 0x43, 0x44, 0x45}
  }

  /** Parses a model name as the command line spells it. */
  function FromStr(name: string): (r: Option<Model>)
    ensures r.Some? ==> Supported(r.value)
  {
    match name
    case "QL-600" => Some(QL600)
    case "QL-720NW" => Some(QL720NW)
    case "QL-800" => Some(QL800)
    case "QL-810W" => Some(QL810W)
    case "QL-820NWB" => Some(QL820NWB)
    case "QL-1100" => Some(QL1100)
    case "QL-1110NWB" => Some(QL1110NWB)
    case "QL-1115NWB" => Some(QL1115NWB)
    case _ => None
  }

  /** Decodes byte 4 of a status reply; any other code is a panic in the driver. */
  function FromCode(code: bv8): (r: Model)
    requires IsModelCode(code)
    ensures Supported(r)
  {
    match code
    case 0x47 => QL600
    case 0x37 => QL720NW
    case 0x38 => QL800
    case 0x39 => QL810W
    case 0x41 => QL820NWB
    case 0x43 => QL1100
    case 0x44 => QL1110NWB
    case 0x45 => QL1115NWB
  }

  /** USB product id under Brother's vendor id; 0 for models without one. */
  function Pid(m: Model): (r: nat)
    ensures r != 0 <==> Supported(m)
    ensures r < 0x1_0000
  {
    match m
    case QL600 => 0x20C0
    case QL720NW => 0x2044
    case QL800 => 0x209B
    case QL810W => 0x209C
    case QL820NWB => 0x209D
    case QL1100 => 0x20A7
    case QL1110NWB => 0x20A8
    case QL1115NWB => 0x20AB
    case _ => 0x0000
  }

  /** Models whose print head has the wide (1296 pin) layout. */
  predicate IsWide(m: Model)
  {
    m in {QL1050, QL1060N, QL1100, QL1110NWB, QL1115NWB}
  }

  /** Number of print-head pins of a model. */
  function Pins(m: Model): (r: nat)
    ensures r == WidePrinterWidth <==> IsWide(m)
    ensures r == NormalPrinterWidth <==> !IsWide(m)
  {
    match m
    case QL1050 => WidePrinterWidth
    case QL1060N => WidePrinterWidth
    case QL1100 => WidePrinterWidth
    case QL1110NWB => WidePrinterWidth
    case QL1115NWB => WidePrinterWidth
    case _ => NormalPrinterWidth
  }

  /** Display name; every variant has an explicit arm, so the source's
      fallback "UNKNOWN" arm can never be taken and is not modelled. */
  function Display(m: Model): (r: string)
    ensures |r| > 3 && r[..3] == "QL-"
    ensures r != "UNKNOWN"
  {
    match m
    case QL500 => "QL-500"
    case QL550 => "QL-550"
    case QL560 => "QL-560"
    case QL570 => "QL-570"
    case QL580N => "QL-580N"
    case QL600 => "QL-600"
    case QL650TD => "QL-650TD"
    case QL700 => "QL-700"
    case QL710W => "QL-710W"
    case QL720NW => "QL-720NW"
    case QL800 => "QL-800"
    case QL810W => "QL-810W"
    case QL820NWB => "QL-820NWB"
    case QL1050 => "QL-1050"
    case QL1060N => "QL-1060N"
    case QL1100 => "QL-1100"
    case QL1110NWB => "QL-1110NWB"
    case QL1115NWB => "QL-1115NWB"
  }

  /** Parsing accepts exactly the display names of the supported models. */
  lemma FromStrExactly(name: string)
    ensures FromStr(name).Some? <==>
      name in {"QL-600", "QL-720NW", "QL-800", "QL-810W", "QL-820NWB",
               "QL-1100", "QL-1110NWB", "QL-1115NWB"}
  {
  }

  /** Round trip: displaying a supported model and parsing the name gives it back. */
  lemma FromStrDisplay(m: Model)
    requires Supported(m)
    ensures FromStr(Display(m)) == Some(m)
  {
  }

  /** The converse round trip: a name that parses is the display name of its model. */
  lemma DisplayFromStr(name: string)
    requires FromStr(name).Some?
    ensures Display(FromStr(name).value) == name
  {
  }

  /** Status codes and names cover the same eight models. */
  lemma FromCodeCoversSupported(m: Model)
    ensures Supported(m) <==> exists code: bv8 :: IsModelCode(code) && FromCode(code) == m
  {
    if Supported(m) {
      var code: bv8 :=
        match m
        case QL600 => 0x47
        case QL720NW => 0x37
        case QL800 => 0x38
        case QL810W => 0x39
        case QL820NWB => 0x41
        case QL1100 => 0x43
        case QL1110NWB => 0x44
        case _ => 0x45;
      assert IsModelCode(code) && FromCode(code) == m;
    }
  }

  /** Distinct status codes decode to distinct models. */
  lemma FromCodeInjective(a: bv8, b: bv8)
    requires IsModelCode(a) && IsModelCode(b)
    ensures FromCode(a) == FromCode(b) ==> a == b
  {
  }

  /** The QL-800 that callers name is found under product id 0x209B, and the status
      model code 0x38 names it. */
  lemma QL800Example()
    ensures Pid(QL800) == 0x209B
    ensures FromStr("QL-800") == Some(QL800)
    ensures Display(FromCode(0x38)) == "QL-800"
  {
  }

  /** Supported models have pairwise distinct product ids, so the id selects the model. */
  lemma PidInjective(a: Model, b: Model)
    requires Supported(a) && Supported(b)
    ensures Pid(a) == Pid(b) ==> a == b
  {
  }

  /** Distinct models have distinct display names. */
  lemma DisplayInjective(a: Model, b: Model)
    ensures Display(a) == Display(b) ==> a == b
  {
  }
}
