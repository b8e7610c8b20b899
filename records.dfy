/** A penguin record as the loader builds it and the aggregators read it. */
module Records {

  datatype Option<T> = None | Some(value: T)

  /** What a record holds under one column: text, a float measurement, an
      integer year, or None for a missing measurement or year. */
  datatype Value = Str(text: string) | Float(x: real) | Int(n: int) | Null

  /** One penguin: column name to value (a Python dict). */
  type Record = map<string, Value>

  /** The columns converted with float(). */
  const MeasurementColumns: set<string> :=
    {"bill_length_mm", "bill_depth_mm", "flipper_length_mm", "body_mass_g"}

  /** The column converted with int(). */
  const YearColumn: string := "year"

  /** The column each record's mass is read from. */
  const BodyMassColumn: string := "body_mass_g"

  /** Every value has the type its column is loaded as: a float or None under
      a measurement column, an int or None under year, text everywhere else. */
  ghost predicate WellTyped(r: Record) {
    forall k :: k in r ==>
      if k in MeasurementColumns then r[k].Float? || r[k].Null?
      else if k == YearColumn then r[k].Int? || r[k].Null?
      else r[k].Str?
  }

  /** penguin.get(key, '') for a text column (a missing column reads as ""). */
  function Text(r: Record, key: string): string {
    if key in r && r[key].Str? then r[key].text else ""
  }

  /** penguin.get(key) for a measurement column: None when absent or None.
      An int is read as its value, as Python's arithmetic would use it. */
  function Measurement(r: Record, key: string): Option<real> {
    if key !in r then None
    else match r[key]
      case Float(x) => Some(x)
      case Int(n) => Some(n as real)
      case _ => None
  }

  function Species(r: Record): string { Text(r, "species") }

  function Island(r: Record): string { Text(r, "island") }

  function Sex(r: Record): string { Text(r, "sex") }

  function BodyMass(r: Record): Option<real> { Measurement(r, BodyMassColumn) }
}
