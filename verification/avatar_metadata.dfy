/**
 * The provider for user-avatar metadata (XEP-0084, section 4.2): it walks
 * the children of `<metadata/>` and keeps each `<info/>` whose id and type
 * are present and whose byte size parses to a non-zero int.
 */
module AvatarMetadata {
  import opened Wrappers
  import opened JavaValues
  import opened XmlEvents

  // Element and attribute names of XEP-0084, section 4.2.
  const MetadataElement: string := "metadata"
  const InfoElement: string := "info"
  const AttrId: string := "id"
  const AttrType: string := "type"
  const AttrBytes: string := "bytes"
  const AttrWidth: string := "width"
  const AttrHeight: string := "height"
  const AttrUrl: string := "url"

  /** One advertised avatar image. */
  datatype Info = Info(id: string, mimeType: string, bytes: int, url: Option<string>, width: int, height: int)

  /** An optional numeric attribute: absent is 0, otherwise `Integer.parseInt`. */
  function Dimension(attr: Option<string>): Option<int>
  {
    if attr.None? then Some(0) else ParseInt(attr.value)
  }

  /** The byte size: 0 when the attribute is absent or does not parse. */
  function ByteSize(attr: Option<string>): (r: int)
    ensures r != 0 <==> attr.Some? && ParseInt(attr.value).Some? && ParseInt(attr.value).value != 0
  {
    if attr.None? then 0
    else match ParseInt(attr.value)
      case None => 0
      case Some(b) => b
  }

  /**
   * The info an event contributes: only an `<info/>` start tag can
   * contribute one (see `InfoOfValidates` for when it does).
   */
  function InfoOf(e: Event): (r: Option<Info>)
    ensures r.Some? ==> e.StartTag? && e.name == InfoElement
  {
    if !e.StartTag? || e.name != InfoElement then None
    else
      var id := AttributeValue(e.attributes, AttrId);
      var mimeType := AttributeValue(e.attributes, AttrType);
      var bytes := ByteSize(AttributeValue(e.attributes, AttrBytes));
      if id.None? || mimeType.None? || bytes == 0 then None
      else
        var url := AttributeValue(e.attributes, AttrUrl);
        var w := Dimension(AttributeValue(e.attributes, AttrWidth));
        var h := Dimension(AttributeValue(e.attributes, AttrHeight));
        var info := Info(id.value, mimeType.value, bytes, url, 0, 0);
        Some(if w.Some? && h.Some? then info.(width := w.value, height := h.value) else info)
  }

  /**
   * An `<info/>` start tag yields an info exactly when it has an id, a type
   * and a byte size that parses to a non-zero int. The url is copied as
   * is; width and height are set only when both parse (absent counts as
   * 0), and otherwise keep their default 0.
   */
  lemma InfoOfValidates(e: Event)
    ensures InfoOf(e).Some? <==>
      e.StartTag? && e.name == InfoElement
      && AttributeValue(e.attributes, AttrId).Some? && AttributeValue(e.attributes, AttrType).Some?
      && ByteSize(AttributeValue(e.attributes, AttrBytes)) != 0
    ensures InfoOf(e).Some? ==>
      var info := InfoOf(e).value;
      && Some(info.id) == AttributeValue(e.attributes, AttrId)
      && Some(info.mimeType) == AttributeValue(e.attributes, AttrType)
      && Some(info.bytes) == ParseInt(AttributeValue(e.attributes, AttrBytes).value)
      && info.bytes != 0
      && info.url == AttributeValue(e.attributes, AttrUrl)
    ensures InfoOf(e).Some? ==>
      var info := InfoOf(e).value;
      var w := Dimension(AttributeValue(e.attributes, AttrWidth));
      var h := Dimension(AttributeValue(e.attributes, AttrHeight));
      if w.Some? && h.Some? then info.width == w.value && info.height == h.value
      else info.width == 0 && info.height == 0
  {
  }

  /** The infos an event adds: its own, if it has one. */
  function Contribution(e: Event): seq<Info>
  {
    if InfoOf(e).Some? then [InfoOf(e).value] else []
  }

  /** The infos a list of events contributes, in document order. */
  function InfosIn(events: seq<Event>): seq<Info>
    decreases |events|
  {
    if events == [] then [] else Contribution(events[0]) + InfosIn(events[1..])
  }

  /** Whether the event closes `<metadata/>`. */
  predicate ClosesMetadata(e: Event)
  {
    e.EndTag? && e.name == MetadataElement
  }

  /**
   * The provider's loop from position `pos`: advance, collect the event's
   * info if it has one, and stop at the end tag of `<metadata/>`. Returns
   * the infos and the position of that end tag.
   */
  function Scan(events: seq<Event>, pos: nat, infos: seq<Info>): (r: Result<(seq<Info>, nat), Exception>)
    ensures r.Failure? ==> r.error == ParserError
    ensures r.Success? ==> pos < r.value.1 < |events|
    decreases |events| - pos
  {
    match Next(events, pos)
    case Failure(err) => Failure(err)
    case Success(p) =>
      var e := events[p];
      if ClosesMetadata(e) then Success((infos, p))
      else Scan(events, p, infos + Contribution(e))
  }

  /** One step of the loop. */
  lemma ScanStep(events: seq<Event>, p: nat, infos: seq<Info>)
    requires p + 1 < |events|
    ensures Scan(events, p, infos) ==
      if ClosesMetadata(events[p + 1]) then Success((infos, p + 1))
      else Scan(events, p + 1, infos + Contribution(events[p + 1]))
  {
  }

  /**
   * The loop ends at the first end tag of `<metadata/>` after `pos`, and
   * fails exactly when there is none.
   */
  lemma {:induction false} ScanStopsAtMetadataEnd(events: seq<Event>, pos: nat, infos: seq<Info>)
    ensures var r := Scan(events, pos, infos);
      r.Success? ==>
        && ClosesMetadata(events[r.value.1])
        && (forall i :: pos < i < r.value.1 ==> !ClosesMetadata(events[i]))
    ensures Scan(events, pos, infos).Failure? <==> forall i :: pos < i < |events| ==> !ClosesMetadata(events[i])
    decreases |events| - pos
  {
    if pos + 1 < |events| {
      ScanStep(events, pos, infos);
      if !ClosesMetadata(events[pos + 1]) {
        ScanStopsAtMetadataEnd(events, pos + 1, infos + Contribution(events[pos + 1]));
      }
    }
  }

  /** The infos the loop adds are those of the events it passes, in document order. */
  lemma {:induction false} ScanCollectsInOrder(events: seq<Event>, pos: nat, infos: seq<Info>)
    requires Scan(events, pos, infos).Success?
    ensures var r := Scan(events, pos, infos).value;
      r.0 == infos + InfosIn(events[pos + 1..r.1])
    decreases |events| - pos
  {
    var p := pos + 1;
    var e := events[p];
    ScanStep(events, pos, infos);
    if ClosesMetadata(e) {
      assert events[pos + 1..p] == [];
    } else {
      ScanCollectsInOrder(events, p, infos + Contribution(e));
      var q := Scan(events, p, infos + Contribution(e)).value.1;
      assert events[pos + 1..q][0] == e && events[pos + 1..q][1..] == events[p + 1..q];
    }
  }

  /** Every info collected has an id, a type and a non-zero byte size. */
  lemma {:induction false} InfosInValid(events: seq<Event>)
    ensures forall info :: info in InfosIn(events) ==> info.bytes != 0 && IsInt(info.bytes)
    decreases |events|
  {
    if events != [] {
      InfosInValid(events[1..]);
      InfoOfValidates(events[0]);
    }
  }

  /**
   * `parse` at the `<metadata/>` start tag: the loop from there. An input
   * that ends before `</metadata>` is a parser error.
   */
  function Parse(events: seq<Event>, pos: nat): Result<(seq<Info>, nat), Exception>
  {
    Scan(events, pos, [])
  }

  /** The provider's `while (!done)` loop over the events. */
  method ParseEvents(events: seq<Event>, pos: nat) returns (r: Result<(seq<Info>, nat), Exception>)
    ensures r == Parse(events, pos)
  {
    var metadata: seq<Info> := [];
    var p := pos;
    var done := false;
    while !done
      invariant !done ==> Scan(events, p, metadata) == Parse(events, pos)
      invariant done ==> Success((metadata, p)) == Parse(events, pos)
      decreases |events| - p, if done then 0 else 1
    {
      if p + 1 >= |events| {
        return Failure(ParserError);
      }
      ScanStep(events, p, metadata);
      p := p + 1;
      var e := events[p];
      ghost var before := metadata;
      if e.StartTag? {
        var info := InfoOf(e);
        if info.Some? {
          metadata := metadata + [info.value];
        }
      } else if e.EndTag? {
        if e.name == MetadataElement {
          done := true;
        }
      }
      assert !done ==> metadata == before + Contribution(e);
    }
    r := Success((metadata, p));
  }
}
