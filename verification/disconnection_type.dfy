/**
 * The conference-info disconnection type: four constants, each with its
 * wire name, and the parser from a wire name back to the constant.
 */
module DisconnectionTypes {
  import opened Wrappers
  import opened JavaValues

  datatype DisconnectionType = Departed | Booted | Failed | Busy

  /** The constants in declaration order, as `values()` returns them. */
  const Values: seq<DisconnectionType> := [Departed, Booted, Failed, Busy]

  /** The wire name of a constant. */
  function ToString(t: DisconnectionType): (r: string)
    ensures r in {"departed", "booted", "failed", "busy"}
  {
    match t
    case Departed => "departed"
    case Booted => "booted"
    case Failed => "failed"
    case Busy => "busy"
  }

  /**
   * The first constant of `Values` whose name equals `s`; a null or
   * unknown string is an IllegalArgumentException.
   */
  function FromString(s: Option<string>): (r: Result<DisconnectionType, Exception>)
    ensures r.Success? ==> s == Some(ToString(r.value))
    ensures r.Failure? ==> r.error == IllegalArgument
  {
    FindFrom(s, 0)
  }

  /** The loop of `fromString`: search `Values` from index `i` on. */
  function FindFrom(s: Option<string>, i: nat): (r: Result<DisconnectionType, Exception>)
    requires i <= |Values|
    ensures r.Success? ==> s == Some(ToString(r.value))
    ensures r.Failure? ==> r.error == IllegalArgument
    ensures r.Failure? <==> forall j :: i <= j < |Values| ==> s != Some(ToString(Values[j]))
    decreases |Values| - i
  {
    if i == |Values| then Failure(IllegalArgument)
    else if s == Some(ToString(Values[i])) then Success(Values[i])
    else FindFrom(s, i + 1)
  }

  /** Parsing the wire name of any constant gives that constant back. */
  lemma FromStringToString(t: DisconnectionType)
    ensures FromString(Some(ToString(t))) == Success(t)
  {
  }

  /** Different constants have different wire names, so `ToString` is injective. */
  lemma ToStringInjective(a: DisconnectionType, b: DisconnectionType)
    ensures ToString(a) == ToString(b) ==> a == b
  {
  }

  /** Null, and every string that is no constant's wire name, is rejected. */
  lemma FromStringRejects(s: Option<string>)
    requires s.None? || forall t: DisconnectionType :: s.value != ToString(t)
    ensures FromString(s) == Failure(IllegalArgument)
  {
    forall j | 0 <= j < |Values|
      ensures s != Some(ToString(Values[j]))
    {
    }
  }
}
