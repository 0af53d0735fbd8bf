/**
 * A pull parser seen as the list of events it reports. The parser stands
 * at one event; `next()` moves to the following one and fails once the
 * document has no more events.
 */
module XmlEvents {
  import opened Wrappers
  import opened JavaValues

  /** One attribute of a start tag: its name and value. */
  datatype Attribute = Attribute(name: string, value: string)

  /**
   * The events a pull parser reports. `Other` stands for everything the
   * modelled parsers do not look at (comments, processing instructions,
   * the document start).
   */
  datatype Event =
    | StartTag(name: string, namespace: string, attributes: seq<Attribute>)
    | EndTag(name: string, namespace: string)
    | Text(text: string)
    | Other

  /** `getName()`: the tag name at a start or end tag, null elsewhere. */
  function NameOf(e: Event): (r: Option<string>)
    ensures r.Some? <==> e.StartTag? || e.EndTag?
  {
    match e
    case StartTag(name, _, _) => Some(name)
    case EndTag(name, _) => Some(name)
    case _ => None
  }

  /** `getNamespace()`: the namespace at a start or end tag, null elsewhere. */
  function NamespaceOf(e: Event): (r: Option<string>)
    ensures r.Some? <==> e.StartTag? || e.EndTag?
  {
    match e
    case StartTag(_, ns, _) => Some(ns)
    case EndTag(_, ns) => Some(ns)
    case _ => None
  }

  /** `getAttributeCount()`: the number of attributes at a start tag, -1 elsewhere. */
  function AttributeCount(e: Event): (r: int)
    ensures e.StartTag? ==> r == |e.attributes|
    ensures !e.StartTag? ==> r == -1
  {
    if e.StartTag? then |e.attributes| else -1
  }

  /** The value of the first attribute named `name`; null if there is none. */
  function AttributeValue(attrs: seq<Attribute>, name: string): Option<string>
  {
    if attrs == [] then None
    else if attrs[0].name == name then Some(attrs[0].value)
    else AttributeValue(attrs[1..], name)
  }

  /**
   * The lookup is null exactly when no attribute has the name, and
   * otherwise yields the value of the first attribute that has it.
   */
  lemma {:induction false} AttributeValueFindsFirst(attrs: seq<Attribute>, name: string)
    ensures AttributeValue(attrs, name).None? <==> forall i :: 0 <= i < |attrs| ==> attrs[i].name != name
    ensures AttributeValue(attrs, name).Some? ==>
      exists i :: 0 <= i < |attrs| && attrs[i].name == name && attrs[i].value == AttributeValue(attrs, name).value
        && forall j :: 0 <= j < i ==> attrs[j].name != name
  {
    if attrs != [] && attrs[0].name != name {
      var rest := attrs[1..];
      AttributeValueFindsFirst(rest, name);
      forall i | 1 <= i < |attrs| ensures attrs[i] == rest[i - 1] {
      }
      if AttributeValue(rest, name).Some? {
        var k :| 0 <= k < |rest| && rest[k].name == name && rest[k].value == AttributeValue(rest, name).value
          && forall j :: 0 <= j < k ==> rest[j].name != name;
        assert attrs[k + 1] == rest[k];
      }
    }
  }

  /** `getAttributeValue(ns, name)` at an event: null away from a start tag. */
  function AttributeOf(e: Event, name: string): Option<string>
  {
    if e.StartTag? then AttributeValue(e.attributes, name) else None
  }

  /** `next()`: the position of the following event; past the last event the parser throws. */
  function Next(events: seq<Event>, pos: nat): (r: Result<nat, Exception>)
    ensures r.Success? <==> pos + 1 < |events|
    ensures r.Success? ==> r.value == pos + 1
    ensures r.Failure? ==> r.error == ParserError
  {
    if pos + 1 < |events| then Success(pos + 1) else Failure(ParserError)
  }

  /**
   * `nextText()` at a start tag: the text up to its end tag ("" when the
   * end tag follows at once), and the position of that end tag. Anything
   * else is a parser error.
   */
  function NextText(events: seq<Event>, pos: nat): (r: Result<(string, nat), Exception>)
    requires pos < |events|
    ensures r.Success? ==> pos < r.value.1 < |events| && events[r.value.1].EndTag?
    ensures r.Failure? ==> r.error == ParserError
  {
    if !events[pos].StartTag? || pos + 1 >= |events| then Failure(ParserError)
    else if events[pos + 1].EndTag? then Success(("", pos + 1))
    else if events[pos + 1].Text? && pos + 2 < |events| && events[pos + 2].EndTag? then
      Success((events[pos + 1].text, pos + 2))
    else Failure(ParserError)
  }

  /** Text rendering of an event list (without escaping). */
  function Render(events: seq<Event>): string
  {
    if events == [] then ""
    else
      var e := events[0];
      var head := match e
        case StartTag(name, _, _) => "<" + name + ">"
        case EndTag(name, _) => "</" + name + ">"
        case Text(t) => t
        case Other => "";
      head + Render(events[1..])
  }

  /** Rendering distributes over concatenation of event lists. */
  lemma {:induction false} RenderConcat(a: seq<Event>, b: seq<Event>)
    ensures Render(a + b) == Render(a) + Render(b)
    decreases |a|
  {
    if a != [] {
      assert (a + b)[1..] == a[1..] + b;
      RenderConcat(a[1..], b);
    } else {
      assert a + b == b;
    }
  }
}
