/** Values shared by every part of the Neo4j storage adapter model. */
module Types {

  datatype Option<+T> = None | Some(value: T)

  /** A property value as the adapter handles it: Python `None`, a number,
      a string, or a list of strings (the `labels` entry of a fallback node). */
  datatype Value = Null | Num(x: real) | Str(s: string) | Strs(items: seq<string>)

  /** A Python property dict; key order is not modelled. */
  type Props = map<string, Value>

  /** Number of occurrences of `c` in `s`. */
  function Occurrences(s: string, c: char): nat
  {
    if s == [] then 0 else (if s[0] == c then 1 else 0) + Occurrences(s[1..], c)
  }
}
