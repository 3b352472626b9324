/** The code library: a closed set of six error-correction code variants,
    looked up by their dictionary key, each with its noise threshold. */
module Registry {
  import opened Results

  datatype Code = Surface | Hypergraph | Lifted | Color | Yoked1D | Yoked2D
  {
    /** Variants with a tiled lattice: they report a distance and an ancilla count. */
    predicate DistanceBased()
    {
      !(Hypergraph? || Lifted?)
    }
  }

  /** The dictionary key under which the library stores a code. */
  function Key(c: Code): string
  {
    match c
    case Surface => "surface"
    case Hypergraph => "hypergraph"
    case Lifted => "lifted"
    case Color => "color"
    case Yoked1D => "yoked_1d"
    case Yoked2D => "yoked_2d"
  }

  /** `codes[name]`: the code stored under a key, or None where Python raises KeyError. */
  function Lookup(name: string): (r: Option<Code>)
    ensures r.Some? ==> Key(r.value) == name
    ensures r.None? ==> forall c: Code :: Key(c) != name
  {
    if name == "surface" then Some(Surface)
    else if name == "hypergraph" then Some(Hypergraph)
    else if name == "lifted" then Some(Lifted)
    else if name == "color" then Some(Color)
    else if name == "yoked_1d" then Some(Yoked1D)
    else if name == "yoked_2d" then Some(Yoked2D)
    else None
  }

  /** Every code is found under its own key, so the keys are distinct. */
  lemma LookupKey(c: Code)
    ensures Lookup(Key(c)) == Some(c)
  {
  }

  /** The registry's threshold p_th: the physical error rate beyond which
      growing the code no longer suppresses logical errors. */
  function Threshold(c: Code): (t: real)
    ensures 0.0036 <= t <= 0.011
  {
    match c
    case Surface => 0.011
    case Hypergraph => 0.006
    case Lifted => 0.0066
    case Color => 0.0036
    case Yoked1D => 0.011
    case Yoked2D => 0.011
  }

  /** The yoked variants share the surface code's threshold; the others differ. */
  lemma ThresholdTable(c: Code)
    ensures c.Yoked1D? || c.Yoked2D? ==> Threshold(c) == Threshold(Surface)
    ensures Threshold(Color) < Threshold(Hypergraph) < Threshold(Lifted) < Threshold(Surface)
  {
  }
}
