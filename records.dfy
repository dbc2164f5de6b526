/** Values passed between the serial reader and its analyzers. */
module Records {

  datatype Option<T> = None | Some(value: T)

  /** A timestamped numeric value (std::pair<std::time_t, double>). */
  datatype Sample = Sample(timestamp: int, value: real)

  /** A record published by the reader (std::pair<std::time_t, std::string>):
      a numeric text, or one of the control strings. */
  datatype Reading = Reading(timestamp: int, text: string)

  /** (-1, 0): "no legitimate value available". */
  const Sentinel := Sample(-1, 0.0)

  /** The three texts the reader uses instead of a measurement. */
  predicate IsControl(text: string)
  {
    text == "ERROR" || text == "CLOSED" || text == "INITIALIZING"
  }

  /** The numeric parts of a window of samples, in window order. */
  function Values(w: seq<Sample>): (vs: seq<real>)
    ensures |vs| == |w|
    ensures forall i :: 0 <= i < |w| ==> vs[i] == w[i].value
  {
    seq(|w|, i requires 0 <= i < |w| => w[i].value)
  }

  /** Values of a one-longer prefix: the loops of both reducers walk the window front to back. */
  lemma ValuesPrefix(w: seq<Sample>, i: nat)
    requires i < |w|
    ensures Values(w[..i + 1]) == Values(w[..i]) + [w[i].value]
  {
    assert Values(w[..i + 1])[..i] == Values(w[..i]);
  }
}
