/** The five states of a grid cell and their one-character file symbols. */
module CellStates {
  import opened Errors

  /** Declaration order as in the C# enum; `None` is its first (default) member. */
  datatype CellState = None | Absent | Recommended | Graded | Locked

  /** The five symbols the `.uts` format uses for cells. */
  const SYMBOLS: set<char> := {'A', 'D', 'Z', '-', 'L'}

  /** Encodes a state as its file symbol; `None` (the switch's default arm) is `-`. */
  function ToChar(s: CellState): (c: char)
    ensures c in SYMBOLS
    ensures (c == '-') <==> s == None
  {
    match s
    case Absent => 'A'
    case Recommended => 'D'
    case Graded => 'Z'
    case Locked => 'L'
    case None => '-'
  }

  /** Decodes a file symbol; any other character is a FormatException. */
  function FromChar(c: char): (r: Result<CellState>)
    ensures r.Ok? <==> c in SYMBOLS
    ensures r.Err? ==> r.error == Format(InvalidCell(c))
  {
    match c
    case 'A' => Ok(Absent)
    case 'D' => Ok(Recommended)
    case 'Z' => Ok(Graded)
    case '-' => Ok(None)
    case 'L' => Ok(Locked)
    case _ => Err(Format(InvalidCell(c)))
  }

  /** Decoding undoes encoding for every state. */
  lemma FromCharToChar(s: CellState)
    ensures FromChar(ToChar(s)) == Ok(s)
  {
  }

  /** Encoding undoes decoding for every valid symbol. */
  lemma ToCharFromChar(c: char)
    requires c in SYMBOLS
    ensures FromChar(c).Ok? && ToChar(FromChar(c).value) == c
  {
  }

  /** `ToChar` is injective and its range is exactly the five symbols. */
  lemma ToCharBijective()
    ensures forall s1, s2 :: ToChar(s1) == ToChar(s2) ==> s1 == s2
    ensures forall c :: c in SYMBOLS <==> exists s :: ToChar(s) == c
  {
    forall c | c in SYMBOLS
      ensures exists s :: ToChar(s) == c
    {
      ToCharFromChar(c);
    }
  }
}
