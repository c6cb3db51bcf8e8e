/**
 The platform engine's option type, `NSRegularExpression.Options`, seen from
 the wrapper. Its raw values are not known here, so a flag is an abstract
 name and an option set is a finite set of names.
 */
module EngineOptions {

  /**
   The seven engine flags that have a counterpart in `RegExpOptions`, and any
   other flag the engine may define (`Unlisted`), which the translation tables
   do not mention.
   */
  datatype EngineFlag =
    | CaseInsensitive
    | AllowCommentsAndWhitespace
    | IgnoreMetacharacters
    | DotMatchesLineSeparators
    | AnchorsMatchLines
    | UseUnixLineSeparators
    | UseUnicodeWordBoundaries
    | Unlisted(id: nat)
  {
    /** The position of a listed flag in the order the translation table lists it. */
    function Position(): (k: nat)
      requires !Unlisted?
      ensures k < |ListedFlags| && ListedFlags[k] == this
    {
      match this
      case CaseInsensitive => 0
      case AllowCommentsAndWhitespace => 1
      case IgnoreMetacharacters => 2
      case DotMatchesLineSeparators => 3
      case AnchorsMatchLines => 4
      case UseUnixLineSeparators => 5
      case UseUnicodeWordBoundaries => 6
    }
  }

  /** The seven listed engine flags, in the order the translation table lists them. */
  const ListedFlags: seq<EngineFlag> := [
    CaseInsensitive, AllowCommentsAndWhitespace, IgnoreMetacharacters,
    DotMatchesLineSeparators, AnchorsMatchLines, UseUnixLineSeparators,
    UseUnicodeWordBoundaries
  ]

  type EngineOptionSet = set<EngineFlag>

  /**
   Left fold of `insert` over `s` starting from `acc`: `init(_ sequence:)` of
   the engine's option type.
   */
  function InsertAll(s: seq<EngineFlag>, acc: EngineOptionSet): (r: EngineOptionSet)
    ensures forall f :: f in r <==> f in acc || f in s
    decreases |s|
  {
    if s == [] then acc else InsertAll(s[1..], acc + {s[0]})
  }

  /** `init(_ sequence:)` of the engine's option type. */
  function FromSequence(s: seq<EngineFlag>): EngineOptionSet {
    InsertAll(s, {})
  }
}
