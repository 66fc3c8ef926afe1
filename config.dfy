/**
 * The validator's fixed tables: the stations of the monitoring network with
 * their codes, the renaming of ENVISTA parameter names, the columns of the
 * base format, the operating ranges with their detection limits, and the
 * parameter lists the individual rules apply to.
 */
module Config {
  import opened Cells

  /** Station names as they appear in ENVISTA column headers, with their codes, in declaration order. */
  const Stations: seq<(string, string)> := [
    ("Atemajac", "ATM"), ("Counrty", "COU"), ("Estación Centro", "CEN"), ("Las Aguilas", "AGU"),
    ("Las Pintas", "PIN"), ("Loma Dorada", "LDO"), ("Miravalle", "MIR"), ("Oblatos", "OBL"),
    ("Santa Anita", "SAN"), ("Santa Fe", "SFE"), ("Santa Margarita", "SMT"), ("Tlaquepaque", "TLA"),
    ("Vallarta", "VAL")
  ]

  /** The key columns of the base format. */
  const KeyColumns: seq<string> := ["STATION", "DATE", "HOUR"]

  /** The parameter columns of the base format, in their order. */
  const ParamColumns: seq<string> := [
    "O3", "NO", "NO2", "NOX", "SO2", "CO", "PM10", "PM2.5", "IT", "ET", "RH", "WS", "WD", "PP", "ATM", "RS", "UVI"
  ]

  /** ENVISTA parameter names and their base-format names, in declaration order. */
  const ParamTable: seq<(string, string)> := [
    ("TempInt", "IT"), ("TempExt", "ET"), ("Radiación", "RS"), ("Radidacion", "RS"), ("IUV", "UVI"),
    ("PRECIP", "PP"), ("Presion", "ATM"), ("O3", "O3"), ("NO", "NO"), ("NO2", "NO2"), ("NOX", "NOX"),
    ("SO2", "SO2"), ("CO", "CO"), ("PM10", "PM10"), ("PM2.5", "PM2.5"), ("RH", "RH"), ("WS", "WS"), ("WD", "WD")
  ]

  /** Dictionary lookup with a default: the value of the first entry whose key is `key`. */
  function LookupOr(table: seq<(string, string)>, key: string, default: string): (r: string)
    ensures (exists i :: 0 <= i < |table| && table[i].0 == key) || r == default
    ensures forall i :: (0 <= i < |table| && table[i].0 == key && (forall j :: 0 <= j < i ==> table[j].0 != key)
                         ==> r == table[i].1)
  {
    if table == [] then default
    else if table[0].0 == key then table[0].1
    else
      var r := LookupOr(table[1..], key, default);
      assert forall i :: 1 <= i < |table| ==> table[1..][i - 1] == table[i];
      r
  }

  /** The base-format name of an ENVISTA parameter; a name the table does not know is kept. */
  function MapParam(name: string): string
  {
    LookupOr(ParamTable, name, name)
  }

  /** Every name the table yields is a parameter column. */
  lemma ParamTableLands()
    ensures forall i :: 0 <= i < |ParamTable| ==> ParamTable[i].1 in ParamColumns
  {
  }

  /** A parameter name lands in a base-format column when the table knows it or it already is one. */
  lemma MapParamLands(name: string)
    ensures MapParam(name) in ParamColumns <==> name in ParamColumns || exists i :: 0 <= i < |ParamTable| && ParamTable[i].0 == name
  {
    ParamTableLands();
    if exists i :: 0 <= i < |ParamTable| && ParamTable[i].0 == name {
      var i :| 0 <= i < |ParamTable| && ParamTable[i].0 == name;
      FirstKey(ParamTable, name, i);
    }
  }

  /** Some entry with the key is the first one. */
  lemma FirstKey(table: seq<(string, string)>, key: string, i: nat)
    requires i < |table| && table[i].0 == key
    ensures exists f :: 0 <= f <= i && table[f].0 == key && forall j :: 0 <= j < f ==> table[j].0 != key
  {
    if exists j :: 0 <= j < i && table[j].0 == key {
      var j :| 0 <= j < i && table[j].0 == key;
      FirstKey(table, key, j);
    }
  }

  /** An operating range and, for gases, the detection limit. */
  datatype Range = Range(lo: real, hi: real, limit: Option<real>)

  /** The parameters that have an operating range, in declaration order. */
  const RangeParams: seq<string> := [
    "O3", "SO2", "NO2", "NO", "NOX", "CO", "PM10", "PM2.5", "ET", "IT", "RH", "WS", "WD", "PP", "ATM", "RS", "UVI"
  ]

  function RangeOf(p: string): (r: Option<Range>)
    ensures r.Some? <==> p in RangeParams
    ensures r.Some? ==> r.value.lo < r.value.hi
    ensures r.Some? && r.value.limit.Some? ==> r.value.lo <= r.value.limit.value <= r.value.hi
  {
    match p
    case "O3" => Some(Range(-0.003, 0.5, Some(0.001)))
    case "SO2" => Some(Range(-0.003, 0.5, Some(0.001)))
    case "NO2" => Some(Range(-0.003, 0.5, Some(0.001)))
    case "NO" => Some(Range(-0.003, 0.5, Some(0.001)))
    case "NOX" => Some(Range(-0.006, 0.5, Some(0.006)))
    case "CO" => Some(Range(-0.04, 50.0, Some(0.04)))
    case "PM10" => Some(Range(0.0, 1000.0, None))
    case "PM2.5" => Some(Range(0.0, 1000.0, None))
    case "ET" => Some(Range(-5.0, 50.0, None))
    case "IT" => Some(Range(0.0, 50.0, None))
    case "RH" => Some(Range(0.0, 100.0, None))
    case "WS" => Some(Range(0.0, 50.0, None))
    case "WD" => Some(Range(0.0, 360.0, None))
    case "PP" => Some(Range(0.0, 10.0, None))
    case "ATM" => Some(Range(500.0, 760.0, None))
    case "RS" => Some(Range(0.0, 2000.0, None))
    case "UVI" => Some(Range(0.0, 300.0, None))
    case _ => None
  }

  /** The pollutants that a cabin temperature outside 20-30 °C invalidates. */
  const CabinPollutants: seq<string> := ["O3", "NOX", "NO", "NO2", "PM10", "PM2.5", "SO2", "CO"]

  /** The parameters whose long constant runs are suspicious. */
  const RunParams: seq<string> := ["CO", "NOX", "NO2", "NO", "O3", "PM10", "PM2.5"]

  /** The file extensions an upload may carry. */
  const AllowedExtensions: seq<string> := ["xlsx", "xls"]
}
