/** String <-> enum tables for FST archive types and entry types
    (src/extensions/far/getters.cc). */
module FarGetters {
  import opened Getter

  /** The FAR container kinds. `OutOfRange` stands for any other value an
      integer cast can put in the enum, which the printing switch has to
      handle through its default branch. */
  datatype FarType = Default | Fst | Sttable | Stlist | OutOfRange

  datatype FarEntryType = Line | File

  /** The type name printed for a FAR type. */
  function GetFarTypeString(farType: FarType): (name: string)
    ensures farType != OutOfRange ==> name in {"fst", "stlist", "sttable", "default"}
    ensures farType == OutOfRange <==> name == "<unknown>"
  {
    match farType
    case Fst => "fst"
    case Stlist => "stlist"
    case Sttable => "sttable"
    case Default => "default"
    case OutOfRange => "<unknown>"
  }

  /** Parses a FAR type name; on an unknown name fails and leaves the
      out-parameter as it was. */
  function GetFarType(str: string, farType: FarType): (r: Outcome<FarType>)
    ensures r.ok <==> str in {"fst", "stlist", "sttable", "default"}
    ensures r.ok ==> r.value != OutOfRange && GetFarTypeString(r.value) == str
    ensures !r.ok ==> r.value == farType
  {
    if str == "fst" then Outcome(true, Fst)
    else if str == "stlist" then Outcome(true, Stlist)
    else if str == "sttable" then Outcome(true, Sttable)
    else if str == "default" then Outcome(true, Default)
    else Outcome(false, farType)
  }

  /** The printed name of every proper FAR type parses back to that type. */
  lemma FarTypeStringRoundTrip(t: FarType, old_value: FarType)
    requires t != OutOfRange
    ensures GetFarType(GetFarTypeString(t), old_value) == Outcome(true, t)
  {
  }

  /** Parses a FAR entry type name ("line" or "file"). */
  function GetFarEntryType(str: string, entryType: FarEntryType): (r: Outcome<FarEntryType>)
    ensures r.ok <==> str in {"line", "file"}
    ensures r.ok ==> (r.value == Line <==> str == "line")
    ensures !r.ok ==> r.value == entryType
  {
    if str == "line" then Outcome(true, Line)
    else if str == "file" then Outcome(true, File)
    else Outcome(false, entryType)
  }
}
