/**
 * The provider for the health-check IQ: on a match of the root element's
 * name and namespace it skips everything up to the end tag of that name
 * and returns a fresh, empty IQ.
 */
module HealthCheck {
  import opened Wrappers
  import opened JavaValues
  import opened XmlEvents

  /** The health-check IQ; it carries no payload. */
  datatype HealthCheckIq = HealthCheckIq

  /** The element name and namespace the provider is registered for. */
  datatype Registration = Registration(elementName: string, namespace: string)

  /** Whether the event is an end tag named `root`. */
  predicate Closes(e: Event, root: string)
  {
    e.EndTag? && e.name == root
  }

  /** The `while (!done)` loop: advance until an end tag named `root`; returns its position. */
  function SkipToEnd(events: seq<Event>, pos: nat, root: string): (r: Result<nat, Exception>)
    ensures r.Failure? ==> r.error == ParserError
    ensures r.Success? ==> pos < r.value < |events|
    decreases |events| - pos
  {
    match Next(events, pos)
    case Failure(err) => Failure(err)
    case Success(p) => if Closes(events[p], root) then Success(p) else SkipToEnd(events, p, root)
  }

  /**
   * The loop consumes the events up to and including the first end tag
   * named `root` after `pos`, ignoring everything before it, and fails
   * exactly when there is none.
   */
  lemma {:induction false} SkipToEndStopsAtFirst(events: seq<Event>, pos: nat, root: string)
    ensures var r := SkipToEnd(events, pos, root);
      r.Success? ==> Closes(events[r.value], root) && forall i :: pos < i < r.value ==> !Closes(events[i], root)
    ensures SkipToEnd(events, pos, root).Failure? <==> forall i :: pos < i < |events| ==> !Closes(events[i], root)
    decreases |events| - pos
  {
    if pos + 1 < |events| && !Closes(events[pos + 1], root) {
      SkipToEndStopsAtFirst(events, pos + 1, root);
    }
  }

  /** The current event is the registered element: its name and namespace match. */
  predicate Matches(e: Event, reg: Registration)
  {
    NameOf(e) == Some(reg.elementName) && NamespaceOf(e) == Some(reg.namespace)
  }

  /**
   * `parse`: null without moving unless the current event's name and
   * namespace are the registered ones; otherwise an IQ, with the parser at
   * the first end tag named like the root, or a parser error when the
   * document has no such end tag.
   */
  function Parse(events: seq<Event>, pos: nat, reg: Registration): (r: Result<(Option<HealthCheckIq>, nat), Exception>)
    requires pos < |events|
    ensures !Matches(events[pos], reg) ==> r == Success((None, pos))
    ensures Matches(events[pos], reg) ==>
      (r.Failure? <==> forall i :: pos < i < |events| ==> !Closes(events[i], reg.elementName))
    ensures Matches(events[pos], reg) && r.Success? ==>
      && r.value.0 == Some(HealthCheckIq)
      && pos < r.value.1 < |events| && Closes(events[r.value.1], reg.elementName)
      && forall i :: pos < i < r.value.1 ==> !Closes(events[i], reg.elementName)
    ensures r.Failure? ==> r.error == ParserError
  {
    var e := events[pos];
    if Matches(e, reg) then
      var root := e.name;
      SkipToEndStopsAtFirst(events, pos, root);
      match SkipToEnd(events, pos, root)
      case Failure(err) => Failure(err)
      case Success(p) => Success((Some(HealthCheckIq), p))
    else Success((None, pos))
  }

  /** The provider's loop over the events. */
  method ParseEvents(events: seq<Event>, pos: nat, reg: Registration) returns (r: Result<(Option<HealthCheckIq>, nat), Exception>)
    requires pos < |events|
    ensures r == Parse(events, pos, reg)
  {
    var namespace := NamespaceOf(events[pos]);
    var iq: Option<HealthCheckIq> := None;
    var p := pos;
    if NameOf(events[pos]) == Some(reg.elementName) && namespace == Some(reg.namespace) {
      assert Matches(events[pos], reg);
      var rootElement := events[pos].name;
      iq := Some(HealthCheckIq);
      var done := false;
      while !done
        invariant p < |events|
        invariant !done ==> SkipToEnd(events, p, rootElement) == SkipToEnd(events, pos, rootElement)
        invariant done ==> SkipToEnd(events, pos, rootElement) == Success(p)
        decreases |events| - p, if done then 0 else 1
      {
        if p + 1 >= |events| {
          return Failure(ParserError);
        }
        p := p + 1;
        if events[p].EndTag? {
          var name := events[p].name;
          if rootElement == name {
            done := true;
          }
        }
      }
    }
    r := Success((iq, p));
  }
}
