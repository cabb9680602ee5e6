/** The relatives the calculator knows about, the record a selection is made
    of, and the per-type maximum head count (types.ts). */
module HeirTypes {

  import opened Options

  /** The closed enumeration of fifteen relative categories, in declaration
      order: two spouses, two descendants, five ascendants, six siblings. */
  datatype HeirType =
    | Husband
    | Wife
    | Son
    | Daughter
    | Father
    | Mother
    | PaternalGrandfather
    | PaternalGrandmother
    | MaternalGrandmother
    | FullBrother
    | FullSister
    | PaternalBrother
    | PaternalSister
    | MaternalBrother
    | MaternalSister

  /** One selected relative category and how many such relatives there are. */
  datatype HeirInput = HeirInput(heirType: HeirType, count: int)

  /** The string each enumeration member stands for. These strings are the
      keys of the limit table and of the rendered rows and buttons. */
  function Value(t: HeirType): string
  {
    match t
    case Husband => "Husband"
    case Wife => "Wife"
    case Son => "Son"
    case Daughter => "Daughter"
    case Father => "Father"
    case Mother => "Mother"
    case PaternalGrandfather => "Paternal Grandfather"
    case PaternalGrandmother => "Paternal Grandmother"
    case MaternalGrandmother => "Maternal Grandmother"
    case FullBrother => "Full Brother"
    case FullSister => "Full Sister"
    case PaternalBrother => "Paternal Brother"
    case PaternalSister => "Paternal Sister"
    case MaternalBrother => "Maternal Brother"
    case MaternalSister => "Maternal Sister"
  }

  /** Reads a string back as the enumeration member that carries it. The
      source has no such reverse lookup; this exists only to prove that the
      strings are pairwise distinct (`ValueInjective`). */
  function Parse(s: string): (r: Option<HeirType>)
    ensures r.Some? ==> Value(r.value) == s
  {
    if s == "Husband" then Some(Husband)
    else if s == "Wife" then Some(Wife)
    else if s == "Son" then Some(Son)
    else if s == "Daughter" then Some(Daughter)
    else if s == "Father" then Some(Father)
    else if s == "Mother" then Some(Mother)
    else if s == "Paternal Grandfather" then Some(PaternalGrandfather)
    else if s == "Paternal Grandmother" then Some(PaternalGrandmother)
    else if s == "Maternal Grandmother" then Some(MaternalGrandmother)
    else if s == "Full Brother" then Some(FullBrother)
    else if s == "Full Sister" then Some(FullSister)
    else if s == "Paternal Brother" then Some(PaternalBrother)
    else if s == "Paternal Sister" then Some(PaternalSister)
    else if s == "Maternal Brother" then Some(MaternalBrother)
    else if s == "Maternal Sister" then Some(MaternalSister)
    else None
  }

  /** Every member's string reads back as that member, so no two members
      share a string. */
  lemma ParseValue(t: HeirType)
    ensures Parse(Value(t)) == Some(t)
  {
  }

  lemma ValueInjective(t: HeirType, u: HeirType)
    ensures Value(t) == Value(u) <==> t == u
  {
    ParseValue(t);
    ParseValue(u);
  }

  /** The members in declaration order, as the button grid lists them. */
  const AvailableHeirs: seq<HeirType> :=
    [ Husband, Wife, Son, Daughter, Father, Mother,
      PaternalGrandfather, PaternalGrandmother, MaternalGrandmother,
      FullBrother, FullSister, PaternalBrother, PaternalSister,
      MaternalBrother, MaternalSister ]

  /** The grid offers each of the fifteen members exactly once. */
  lemma AvailableHeirsComplete()
    ensures |AvailableHeirs| == 15
    ensures forall t: HeirType :: t in AvailableHeirs
    ensures forall i, j :: 0 <= i < j < |AvailableHeirs| ==> AvailableHeirs[i] != AvailableHeirs[j]
  {
    forall t: HeirType ensures t in AvailableHeirs {
      match t
      case Husband => assert AvailableHeirs[0] == t;
      case Wife => assert AvailableHeirs[1] == t;
      case Son => assert AvailableHeirs[2] == t;
      case Daughter => assert AvailableHeirs[3] == t;
      case Father => assert AvailableHeirs[4] == t;
      case Mother => assert AvailableHeirs[5] == t;
      case PaternalGrandfather => assert AvailableHeirs[6] == t;
      case PaternalGrandmother => assert AvailableHeirs[7] == t;
      case MaternalGrandmother => assert AvailableHeirs[8] == t;
      case FullBrother => assert AvailableHeirs[9] == t;
      case FullSister => assert AvailableHeirs[10] == t;
      case PaternalBrother => assert AvailableHeirs[11] == t;
      case PaternalSister => assert AvailableHeirs[12] == t;
      case MaternalBrother => assert AvailableHeirs[13] == t;
      case MaternalSister => assert AvailableHeirs[14] == t;
    }
  }

  // Kinship classes of the enumeration.

  predicate IsDescendant(t: HeirType) {
    t == Son || t == Daughter
  }

  predicate IsAscendant(t: HeirType) {
    || t == Father || t == Mother
    || t == PaternalGrandfather || t == PaternalGrandmother || t == MaternalGrandmother
  }

  predicate IsSibling(t: HeirType) {
    || t == FullBrother || t == FullSister
    || t == PaternalBrother || t == PaternalSister
    || t == MaternalBrother || t == MaternalSister
  }

  /** The maximum head count table, one entry per member. */
  const HeirLimits: map<HeirType, int> :=
    map[
      Husband := 1,
      Wife := 4,
      Father := 1,
      Mother := 1,
      PaternalGrandfather := 1,
      PaternalGrandmother := 1,
      MaternalGrandmother := 1,
      Son := 20,
      Daughter := 20,
      FullBrother := 20,
      FullSister := 20,
      PaternalBrother := 20,
      PaternalSister := 20,
      MaternalBrother := 20,
      MaternalSister := 20
    ]

  /** The table has an entry for every member, and every entry allows at
      least one relative. */
  lemma HeirLimitsTotal(t: HeirType)
    ensures t in HeirLimits
    ensures HeirLimits[t] >= 1
  {
  }

  /** The maximum number of relatives of type `t` a selection may carry. */
  function Limit(t: HeirType): (max: int)
    ensures max >= 1
    ensures max == 1 <==> t == Husband || IsAscendant(t)
    ensures max == 4 <==> t == Wife
    ensures max == 20 <==> IsDescendant(t) || IsSibling(t)
  {
    match t
    case Husband => 1
    case Wife => 4
    case Father | Mother | PaternalGrandfather | PaternalGrandmother | MaternalGrandmother => 1
    case _ => 20
  }

  /** `Limit` reads the table: it agrees with `HeirLimits` on every type. */
  lemma LimitIsTable(t: HeirType)
    ensures t in HeirLimits && Limit(t) == HeirLimits[t]
  {
  }

}
