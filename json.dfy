/**
 * The JSON-like values the client passes around: decoded response bodies,
 * request parameters and persisted credentials. `Time` stands for a
 * `datetime` object, which `dataclasses.asdict` leaves in a user's dict.
 * Objects are finite maps; the insertion order of a Python dict is not kept.
 */
module Json {
  import opened Wrappers
  import opened Text
  import Order
  import Calendar

  datatype Value =
    | Null
    | Bool(b: bool)
    | Int(i: int)
    | Str(s: string)
    | List(items: seq<Value>)
    | Obj(fields: map<string, Value>)
    | Time(t: Calendar.Instant)

  /** Python truthiness: `None`, `False`, `0`, `''`, `[]` and `{}` are false. */
  predicate Truthy(v: Value)
  {
    match v
    case Null => false
    case Bool(b) => b
    case Int(i) => i != 0
    case Str(s) => s != []
    case List(items) => items != []
    case Obj(fields) => fields != map[]
    case Time(_) => true
  }

  /** `repr(v)`. Strings are shown in single quotes without escaping, and
      the entries of an object in ascending key order. */
  function Repr(v: Value): (r: string)
    ensures r != []
    decreases v
  {
    match v
    case Null => "None"
    case Bool(b) => if b then "True" else "False"
    case Int(i) => IntToString(i)
    case Str(s) => "'" + s + "'"
    case List(items) =>
      "[" + Join(seq(|items|, k requires 0 <= k < |items| => Repr(items[k])), ", ") + "]"
    case Obj(fields) =>
      var keys := Order.SortedList(fields.Keys);
      "{" + Join(seq(|keys|, k requires 0 <= k < |keys| => "'" + keys[k] + "': " + Repr(fields[keys[k]])), ", ") + "}"
    case Time(t) => TimeRepr(t)
  }

  /** `repr` of a datetime: the trailing microseconds are omitted when zero,
      and then the seconds too when they are zero. */
  function TimeRepr(t: Calendar.Instant): (r: string)
    ensures r != []
  {
    var c := Calendar.CivilOf(t);
    var fields := [c.year, c.month, c.day, c.hour, c.minute]
      + (if t.micros != 0 then [c.second, t.micros] else if c.second != 0 then [c.second] else []);
    "datetime.datetime(" + Join(seq(|fields|, k requires 0 <= k < |fields| => IntToString(fields[k])), ", ") + ")"
  }

  /** A Python list of strings. */
  function StrList(xs: seq<string>): (v: Value)
    ensures v.List? && |v.items| == |xs|
    ensures forall i :: 0 <= i < |xs| ==> v.items[i] == Str(xs[i])
  {
    List(seq(|xs|, i requires 0 <= i < |xs| => Str(xs[i])))
  }

  /** `str(v)`: a string is itself, a datetime is shown as
      `'YYYY-MM-DD HH:MM:SS[.ffffff]'`, everything else as its `repr`. */
  function PyStr(v: Value): (r: string)
    ensures v.Str? ==> r == v.s
    ensures r == [] <==> v == Str([])
  {
    match v
    case Str(s) => s
    case Time(t) => Calendar.DisplayString(t)
    case _ => Repr(v)
  }
}
