/** String-to-enum getters of the scripting layer (src/script/getters.cc).
    Each recognises a fixed table of names; each table is given here a
    second time, in the other direction, as a naming function, and every
    getter is proved to be its inverse. */
module ScriptGetters {
  import opened Getter

  datatype ArcSortType = ILabelSort | OLabelSort

  function ArcSortTypeName(t: ArcSortType): string
  {
    match t
    case ILabelSort => "ilabel"
    case OLabelSort => "olabel"
  }

  function GetArcSortType(str: string, sortType: ArcSortType): (r: Outcome<ArcSortType>)
    ensures r.ok <==> str in {"ilabel", "olabel"}
    ensures r.ok ==> ArcSortTypeName(r.value) == str
    ensures !r.ok ==> r.value == sortType
  {
    if str == "ilabel" then Outcome(true, ILabelSort)
    else if str == "olabel" then Outcome(true, OLabelSort)
    else Outcome(false, sortType)
  }

  datatype ComposeFilter =
    AltSequenceFilter | AutoFilter | MatchFilter | NoMatchFilter | NullFilter
    | SequenceFilter | TrivialFilter

  function ComposeFilterName(f: ComposeFilter): string
  {
    match f
    case AltSequenceFilter => "alt_sequence"
    case AutoFilter => "auto"
    case MatchFilter => "match"
    case NoMatchFilter => "no_match"
    case NullFilter => "null"
    case SequenceFilter => "sequence"
    case TrivialFilter => "trivial"
  }

  function GetComposeFilter(str: string, filter: ComposeFilter): (r: Outcome<ComposeFilter>)
    ensures r.ok <==> str in {"alt_sequence", "auto", "match", "no_match", "null", "sequence", "trivial"}
    ensures r.ok ==> ComposeFilterName(r.value) == str
    ensures !r.ok ==> r.value == filter
  {
    if str == "alt_sequence" then Outcome(true, AltSequenceFilter)
    else if str == "auto" then Outcome(true, AutoFilter)
    else if str == "match" then Outcome(true, MatchFilter)
    else if str == "no_match" then Outcome(true, NoMatchFilter)
    else if str == "null" then Outcome(true, NullFilter)
    else if str == "sequence" then Outcome(true, SequenceFilter)
    else if str == "trivial" then Outcome(true, TrivialFilter)
    else Outcome(false, filter)
  }

  /** Distinct recognised names give distinct filters, and every filter has
      a name that yields it. */
  lemma ComposeFilterTableIsBijective(a: string, b: string, f: ComposeFilter, g: ComposeFilter)
    ensures GetComposeFilter(ComposeFilterName(f), g) == Outcome(true, f)
    ensures GetComposeFilter(a, f).ok && GetComposeFilter(b, f).ok && a != b
            ==> GetComposeFilter(a, f).value != GetComposeFilter(b, f).value
  {
  }

  datatype DeterminizeType = DeterminizeFunctional | DeterminizeNonfunctional | DeterminizeDisambiguate

  function DeterminizeTypeName(t: DeterminizeType): string
  {
    match t
    case DeterminizeFunctional => "functional"
    case DeterminizeNonfunctional => "nonfunctional"
    case DeterminizeDisambiguate => "disambiguate"
  }

  function GetDeterminizeType(str: string, detType: DeterminizeType): (r: Outcome<DeterminizeType>)
    ensures r.ok <==> str in {"functional", "nonfunctional", "disambiguate"}
    ensures r.ok ==> DeterminizeTypeName(r.value) == str
    ensures !r.ok ==> r.value == detType
  {
    if str == "functional" then Outcome(true, DeterminizeFunctional)
    else if str == "nonfunctional" then Outcome(true, DeterminizeNonfunctional)
    else if str == "disambiguate" then Outcome(true, DeterminizeDisambiguate)
    else Outcome(false, detType)
  }

  datatype MapType =
    ArcSum | ArcUnique | Identity | InputEpsilon | Invert | OutputEpsilon | Plus
    | Power | Quantize | RmWeight | Superfinal | Times | ToLog | ToLog64 | ToStd

  /** The canonical name of each mapper; `ToStd` has a second accepted
      spelling, "to_standard". */
  function MapTypeName(t: MapType): string
  {
    match t
    case ArcSum => "arc_sum"
    case ArcUnique => "arc_unique"
    case Identity => "identity"
    case InputEpsilon => "input_epsilon"
    case Invert => "invert"
    case OutputEpsilon => "output_epsilon"
    case Plus => "plus"
    case Power => "power"
    case Quantize => "quantize"
    case RmWeight => "rmweight"
    case Superfinal => "superfinal"
    case Times => "times"
    case ToLog => "to_log"
    case ToLog64 => "to_log64"
    case ToStd => "to_std"
  }

  function GetMapType(str: string, mapType: MapType): (r: Outcome<MapType>)
    ensures r.ok <==> str in {"arc_sum", "arc_unique", "identity", "input_epsilon", "invert",
                              "output_epsilon", "plus", "power", "quantize", "rmweight",
                              "superfinal", "times", "to_log", "to_log64", "to_std", "to_standard"}
    ensures r.ok ==> MapTypeName(r.value) == str || (str == "to_standard" && r.value == ToStd)
    ensures !r.ok ==> r.value == mapType
  {
    if str == "arc_sum" then Outcome(true, ArcSum)
    else if str == "arc_unique" then Outcome(true, ArcUnique)
    else if str == "identity" then Outcome(true, Identity)
    else if str == "input_epsilon" then Outcome(true, InputEpsilon)
    else if str == "invert" then Outcome(true, Invert)
    else if str == "output_epsilon" then Outcome(true, OutputEpsilon)
    else if str == "plus" then Outcome(true, Plus)
    else if str == "power" then Outcome(true, Power)
    else if str == "quantize" then Outcome(true, Quantize)
    else if str == "rmweight" then Outcome(true, RmWeight)
    else if str == "superfinal" then Outcome(true, Superfinal)
    else if str == "times" then Outcome(true, Times)
    else if str == "to_log" then Outcome(true, ToLog)
    else if str == "to_log64" then Outcome(true, ToLog64)
    else if str == "to_std" || str == "to_standard" then Outcome(true, ToStd)
    else Outcome(false, mapType)
  }

  /** Both spellings of the standard-arc conversion give `ToStd`. */
  lemma ToStdSpellings(t: MapType)
    ensures GetMapType("to_std", t) == GetMapType("to_standard", t) == Outcome(true, ToStd)
  {
  }

  datatype ProjectType = ProjectInput | ProjectOutput

  function ProjectTypeName(t: ProjectType): string
  {
    match t
    case ProjectInput => "input"
    case ProjectOutput => "output"
  }

  function GetProjectType(str: string, projectType: ProjectType): (r: Outcome<ProjectType>)
    ensures r.ok <==> str in {"input", "output"}
    ensures r.ok ==> ProjectTypeName(r.value) == str
    ensures !r.ok ==> r.value == projectType
  {
    if str == "input" then Outcome(true, ProjectInput)
    else if str == "output" then Outcome(true, ProjectOutput)
    else Outcome(false, projectType)
  }

  datatype RandArcSelection = Uniform | LogProb | FastLogProb

  function RandArcSelectionName(t: RandArcSelection): string
  {
    match t
    case Uniform => "uniform"
    case LogProb => "log_prob"
    case FastLogProb => "fast_log_prob"
  }

  function GetRandArcSelection(str: string, ras: RandArcSelection): (r: Outcome<RandArcSelection>)
    ensures r.ok <==> str in {"uniform", "log_prob", "fast_log_prob"}
    ensures r.ok ==> RandArcSelectionName(r.value) == str
    ensures !r.ok ==> r.value == ras
  {
    if str == "uniform" then Outcome(true, Uniform)
    else if str == "log_prob" then Outcome(true, LogProb)
    else if str == "fast_log_prob" then Outcome(true, FastLogProb)
    else Outcome(false, ras)
  }

  datatype QueueType = AutoQueue | FifoQueue | LifoQueue | ShortestFirstQueue | StateOrderQueue | TopOrderQueue

  function QueueTypeName(t: QueueType): string
  {
    match t
    case AutoQueue => "auto"
    case FifoQueue => "fifo"
    case LifoQueue => "lifo"
    case ShortestFirstQueue => "shortest"
    case StateOrderQueue => "state"
    case TopOrderQueue => "top"
  }

  function GetQueueType(str: string, queueType: QueueType): (r: Outcome<QueueType>)
    ensures r.ok <==> str in {"auto", "fifo", "lifo", "shortest", "state", "top"}
    ensures r.ok ==> QueueTypeName(r.value) == str
    ensures !r.ok ==> r.value == queueType
  {
    if str == "auto" then Outcome(true, AutoQueue)
    else if str == "fifo" then Outcome(true, FifoQueue)
    else if str == "lifo" then Outcome(true, LifoQueue)
    else if str == "shortest" then Outcome(true, ShortestFirstQueue)
    else if str == "state" then Outcome(true, StateOrderQueue)
    else if str == "top" then Outcome(true, TopOrderQueue)
    else Outcome(false, queueType)
  }

  /** Distinct recognised names give distinct queue types, and every queue
      type has a name that yields it. */
  lemma QueueTableIsBijective(a: string, b: string, q: QueueType, p: QueueType)
    ensures GetQueueType(QueueTypeName(q), p) == Outcome(true, q)
    ensures GetQueueType(a, q).ok && GetQueueType(b, q).ok && a != b
            ==> GetQueueType(a, q).value != GetQueueType(b, q).value
  {
  }

  datatype ReplaceLabelType = ReplaceLabelNeither | ReplaceLabelInput | ReplaceLabelOutput | ReplaceLabelBoth

  function ReplaceLabelTypeName(t: ReplaceLabelType): string
  {
    match t
    case ReplaceLabelNeither => "neither"
    case ReplaceLabelInput => "input"
    case ReplaceLabelOutput => "output"
    case ReplaceLabelBoth => "both"
  }

  /** With `epsilonOnReplace` set the answer is `ReplaceLabelNeither` whatever
      the string; otherwise the four names are recognised. */
  function GetReplaceLabelType(str: string, epsilonOnReplace: bool, rlt: ReplaceLabelType): (r: Outcome<ReplaceLabelType>)
    ensures epsilonOnReplace ==> r == Outcome(true, ReplaceLabelNeither)
    ensures !epsilonOnReplace ==> (r.ok <==> str in {"neither", "input", "output", "both"})
    ensures !epsilonOnReplace && r.ok ==> ReplaceLabelTypeName(r.value) == str
    ensures !r.ok ==> r.value == rlt
  {
    if epsilonOnReplace || str == "neither" then Outcome(true, ReplaceLabelNeither)
    else if str == "input" then Outcome(true, ReplaceLabelInput)
    else if str == "output" then Outcome(true, ReplaceLabelOutput)
    else if str == "both" then Outcome(true, ReplaceLabelBoth)
    else Outcome(false, rlt)
  }

  datatype TokenType = Byte | Utf8 | Symbol

  function TokenTypeName(t: TokenType): string
  {
    match t
    case Byte => "byte"
    case Utf8 => "utf8"
    case Symbol => "symbol"
  }

  function GetTokenType(str: string, tokenType: TokenType): (r: Outcome<TokenType>)
    ensures r.ok <==> str in {"byte", "utf8", "symbol"}
    ensures r.ok ==> TokenTypeName(r.value) == str
    ensures !r.ok ==> r.value == tokenType
  {
    if str == "byte" then Outcome(true, Byte)
    else if str == "utf8" then Outcome(true, Utf8)
    else if str == "symbol" then Outcome(true, Symbol)
    else Outcome(false, tokenType)
  }
}
