/**
 * The identity presence extension of an authenticated conference
 * deployment: a user (id, name, avatar URL) and the user's group, with its
 * serialiser and its pull-parser provider.
 */
module IdentityExtension {
  import opened Wrappers
  import opened JavaValues
  import opened XmlEvents

  const Namespace: string := "jabber:client"
  const ElementName: string := "identity"
  const UserElementName: string := "user"
  const GroupElementName: string := "group"
  const UserIdElementName: string := "id"
  const UserAvatarUrlElementName: string := "avatar"
  const UserNameElementName: string := "name"

  /** The element: the user's id, name and avatar URL, and the group id. */
  datatype Identity = Identity(userId: string, userName: string, userAvatarUrl: string, groupId: string)

  /** `xml.element(name, text)`: a start tag, the text, the end tag. */
  function Element(name: string, text: string): string
  {
    "<" + name + ">" + text + "</" + name + ">"
  }

  /** `toXML`: identity, then user with id, name and avatar, then group, without a namespace declaration. */
  function ToXml(e: Identity): string
  {
    "<" + ElementName + ">" + ("<" + UserElementName + ">"
    + (Element(UserIdElementName, e.userId)
    + (Element(UserNameElementName, e.userName)
    + (Element(UserAvatarUrlElementName, e.userAvatarUrl)
    + ("</" + UserElementName + ">"
    + (Element(GroupElementName, e.groupId)
    + "</" + ElementName + ">"))))))
  }

  /**
   * A child element with text content, as events; it inherits the enclosing
   * namespace. An empty element has no text event between its tags.
   */
  function ElementEvents(name: string, text: string): (r: seq<Event>)
    ensures |r| == if text == "" then 2 else 3
    ensures r[0] == StartTag(name, Namespace, []) && r[|r| - 1] == EndTag(name, Namespace)
    ensures text != "" ==> r[1] == Text(text)
  {
    [StartTag(name, Namespace, [])] + (if text == "" then [] else [Text(text)]) + [EndTag(name, Namespace)]
  }

  /** All four values are non-empty, so each child element carries a text event. */
  predicate NonEmpty(e: Identity)
  {
    e.userId != "" && e.userName != "" && e.userAvatarUrl != "" && e.groupId != ""
  }

  /**
   * The events a pull parser reports for `ToXml(e)` inside a `jabber:client`
   * stanza: sixteen when every value is non-empty, one fewer per empty value.
   */
  function Events(e: Identity): (r: seq<Event>)
    ensures 12 <= |r| <= 16 && (|r| == 16 <==> NonEmpty(e))
    ensures r[0] == StartTag(ElementName, Namespace, []) && r[|r| - 1] == EndTag(ElementName, Namespace)
  {
    [StartTag(ElementName, Namespace, []), StartTag(UserElementName, Namespace, [])]
    + (ElementEvents(UserIdElementName, e.userId)
    + (ElementEvents(UserNameElementName, e.userName)
    + (ElementEvents(UserAvatarUrlElementName, e.userAvatarUrl)
    + ([EndTag(UserElementName, Namespace)]
    + (ElementEvents(GroupElementName, e.groupId)
    + [EndTag(ElementName, Namespace)])))))
  }

  /** A child element's events render as `xml.element` writes it, for empty text too. */
  lemma ElementEventsRender(name: string, text: string)
    ensures Render(ElementEvents(name, text)) == Element(name, text)
  {
    var evs := ElementEvents(name, text);
    if text == "" {
      assert evs[1..][1..] == [];
      assert Render(evs[1..]) == "</" + name + ">";
    } else {
      assert evs[1..][1..][1..] == [];
      assert Render(evs[1..][1..]) == "</" + name + ">";
    }
  }

  /** The text `toXML` writes is the rendering of the event list the parser reads. */
  lemma ToXmlRendersEvents(e: Identity)
    ensures ToXml(e) == Render(Events(e))
  {
    var open := [StartTag(ElementName, Namespace, []), StartTag(UserElementName, Namespace, [])];
    var id := ElementEvents(UserIdElementName, e.userId);
    var name := ElementEvents(UserNameElementName, e.userName);
    var avatar := ElementEvents(UserAvatarUrlElementName, e.userAvatarUrl);
    var closeUser := [EndTag(UserElementName, Namespace)];
    var group := ElementEvents(GroupElementName, e.groupId);
    var close := [EndTag(ElementName, Namespace)];
    // The rendering of each suffix of the event list, from the end.
    var r6 := Element(GroupElementName, e.groupId) + "</" + ElementName + ">";
    assert Render(group + close) == r6 by {
      RenderConcat(group, close);
      ElementEventsRender(GroupElementName, e.groupId);
      assert close[1..] == [];
    }
    var r5 := "</" + UserElementName + ">" + r6;
    assert Render(closeUser + (group + close)) == r5 by {
      RenderConcat(closeUser, group + close);
      assert closeUser[1..] == [];
    }
    var r4 := Element(UserAvatarUrlElementName, e.userAvatarUrl) + r5;
    assert Render(avatar + (closeUser + (group + close))) == r4 by {
      RenderConcat(avatar, closeUser + (group + close));
      ElementEventsRender(UserAvatarUrlElementName, e.userAvatarUrl);
    }
    var r3 := Element(UserNameElementName, e.userName) + r4;
    assert Render(name + (avatar + (closeUser + (group + close)))) == r3 by {
      RenderConcat(name, avatar + (closeUser + (group + close)));
      ElementEventsRender(UserNameElementName, e.userName);
    }
    var r2 := Element(UserIdElementName, e.userId) + r3;
    assert Render(id + (name + (avatar + (closeUser + (group + close))))) == r2 by {
      RenderConcat(id, name + (avatar + (closeUser + (group + close))));
      ElementEventsRender(UserIdElementName, e.userId);
    }
    var r1 := "<" + ElementName + ">" + "<" + UserElementName + ">" + r2;
    assert Render(open + (id + (name + (avatar + (closeUser + (group + close)))))) == r1 by {
      RenderConcat(open, id + (name + (avatar + (closeUser + (group + close)))));
      assert open[1..][1..] == [];
      assert Render(open[1..]) == "<" + UserElementName + ">";
    }
    assert Events(e) == open + (id + (name + (avatar + (closeUser + (group + close)))));
    assert ToXml(e) == r1;
  }

  /** The four fields being collected; null until their text is seen. */
  datatype Fields = Fields(userId: Option<string>, userName: Option<string>,
                           userAvatarUrl: Option<string>, groupId: Option<string>)

  /** A text event goes to the field named by the most recent tag; other tags ignore it. */
  function Assign(f: Fields, currentTag: string, text: string): (r: Fields)
    ensures currentTag == UserAvatarUrlElementName ==> r == f.(userAvatarUrl := Some(text))
    ensures currentTag == UserIdElementName ==> r == f.(userId := Some(text))
    ensures currentTag == UserNameElementName ==> r == f.(userName := Some(text))
    ensures currentTag == GroupElementName ==> r == f.(groupId := Some(text))
    ensures currentTag !in {UserAvatarUrlElementName, UserIdElementName, UserNameElementName, GroupElementName} ==> r == f
  {
    if currentTag == UserAvatarUrlElementName then f.(userAvatarUrl := Some(text))
    else if currentTag == UserIdElementName then f.(userId := Some(text))
    else if currentTag == UserNameElementName then f.(userName := Some(text))
    else if currentTag == GroupElementName then f.(groupId := Some(text))
    else f
  }

  /**
   * The `do ... while` loop of the provider from the parser at `pos`:
   * advance; a start or end tag becomes the current tag, a text goes to the
   * current tag's field; stop once the current tag is `identity`. Returns
   * the fields and where the parser stopped.
   */
  function Scan(events: seq<Event>, pos: nat, currentTag: string, f: Fields): (r: Result<(Fields, nat), Exception>)
    ensures r.Success? ==> pos < r.value.1 < |events|
    decreases |events| - pos
  {
    match Next(events, pos)
    case Failure(err) => Failure(err)
    case Success(p) =>
      var e := events[p];
      var tag := if e.StartTag? || e.EndTag? then e.name else currentTag;
      var f' := if e.Text? then Assign(f, currentTag, e.text) else f;
      if tag == ElementName then Success((f', p)) else Scan(events, p, tag, f')
  }

  /** The element built from the fields only if all four were set. */
  function Build(f: Fields): Option<Identity>
  {
    if f.userAvatarUrl.Some? && f.userId.Some? && f.userName.Some? && f.groupId.Some? then
      Some(Identity(f.userId.value, f.userName.value, f.userAvatarUrl.value, f.groupId.value))
    else None
  }

  /**
   * `Provider.parse` from the parser at `pos`: null without moving unless
   * the current event is `identity` in `jabber:client`; otherwise the
   * element if all four fields were found, and the position reached.
   */
  function Parse(events: seq<Event>, pos: nat): (r: Result<(Option<Identity>, nat), Exception>)
    requires pos < |events|
    ensures NamespaceOf(events[pos]) != Some(Namespace) || NameOf(events[pos]) != Some(ElementName)
            ==> r == Success((None, pos))
    ensures r.Success? && r.value.0.Some? ==> pos < r.value.1 < |events|
  {
    var e := events[pos];
    if NamespaceOf(e) != Some(Namespace) then Success((None, pos))
    else if NameOf(e) != Some(ElementName) then Success((None, pos))
    else match Scan(events, pos, ElementName, Fields(None, None, None, None))
      case Failure(err) => Failure(err)
      case Success((f, p)) => Success((Build(f), p))
  }

  /** The provider's loop, reading the events one by one. */
  method ParseEvents(events: seq<Event>, pos: nat) returns (r: Result<(Option<Identity>, nat), Exception>)
    requires pos < |events|
    ensures r == Parse(events, pos)
  {
    var currentTag := NameOf(events[pos]);
    if NamespaceOf(events[pos]) != Some(Namespace) {
      return Success((None, pos));
    } else if currentTag != Some(ElementName) {
      return Success((None, pos));
    }
    var tag := ElementName;
    var f := Fields(None, None, None, None);
    var p := pos;
    while true
      invariant p < |events|
      invariant Scan(events, p, tag, f) == Scan(events, pos, ElementName, Fields(None, None, None, None))
      decreases |events| - p
    {
      if p + 1 >= |events| {
        return Failure(ParserError);
      }
      p := p + 1;
      var e := events[p];
      if e.StartTag? {
        tag := e.name;
      } else if e.Text? {
        f := Assign(f, tag, e.text);
      } else if e.EndTag? {
        tag := e.name;
      }
      if tag == ElementName {
        break;
      }
    }
    r := Success((Build(f), p));
  }

  /** A value as the provider reads it back: an empty element yields no text, so the field stays null. */
  function ReadBack(s: string): Option<string>
  {
    if s == "" then None else Some(s)
  }

  /**
   * Round trip: reading the events of `toXML` gives back the same element
   * when all four values are non-empty, and null when any is empty; either
   * way the parser ends at the closing `identity` tag.
   */
  lemma ParseEventsOfToXml(e: Identity)
    ensures Parse(Events(e), 0) == Success((if NonEmpty(e) then Some(e) else None, |Events(e)| - 1))
    ensures NonEmpty(e) ==> Parse(Events(e), 0) == Success((Some(e), 15))
  {
    var f := Fields(ReadBack(e.userId), ReadBack(e.userName), ReadBack(e.userAvatarUrl), ReadBack(e.groupId));
    ScanOfEvents(e);
    assert Build(f) == if NonEmpty(e) then Some(e) else None;
  }

  // Scan(events, p, tag, f): `tag` and `f` as they stand once event p is read.

  /**
   * The loop over the events of `toXML` reads each value back into its
   * field and stops at the closing `identity` tag.
   */
  lemma ScanOfEvents(e: Identity)
    ensures Scan(Events(e), 0, ElementName, Fields(None, None, None, None))
         == Success((Fields(ReadBack(e.userId), ReadBack(e.userName), ReadBack(e.userAvatarUrl), ReadBack(e.groupId)),
                     |Events(e)| - 1))
  {
    UserLayout(e);
    GroupLayout(e);
    ScanLayout(Events(e), e.userId, e.userName, e.userAvatarUrl, e.groupId);
  }

  /**
   * The loop over any events laid out as `toXML` writes them: `identity`,
   * `user`, its three children, the end of `user`, `group`, and the end of
   * `identity`.
   */
  lemma ScanLayout(evs: seq<Event>, id: string, name: string, avatar: string, group: string)
    requires var b := 2 + |ElementEvents(UserIdElementName, id)|;
             var c := b + |ElementEvents(UserNameElementName, name)|;
             var u := c + |ElementEvents(UserAvatarUrlElementName, avatar)|;
             && u + |ElementEvents(GroupElementName, group)| + 2 == |evs|
             && evs[1] == StartTag(UserElementName, Namespace, [])
             && ElementAt(evs, 2, UserIdElementName, id)
             && ElementAt(evs, b, UserNameElementName, name)
             && ElementAt(evs, c, UserAvatarUrlElementName, avatar)
             && evs[u] == EndTag(UserElementName, Namespace) && evs[|evs| - 1] == EndTag(ElementName, Namespace)
             && ElementAt(evs, u + 1, GroupElementName, group)
    ensures Scan(evs, 0, ElementName, Fields(None, None, None, None))
         == Success((Fields(ReadBack(id), ReadBack(name), ReadBack(avatar), ReadBack(group)), |evs| - 1))
  {
    var f0 := Fields(None, None, None, None);
    var u := 2 + |ElementEvents(UserIdElementName, id)| + |ElementEvents(UserNameElementName, name)|
             + |ElementEvents(UserAvatarUrlElementName, avatar)|;
    assert Scan(evs, 0, ElementName, f0) == Scan(evs, 1, UserElementName, f0);
    ScanUser(evs, id, name, avatar);
    ScanGroup(evs, u, group, Fields(ReadBack(id), ReadBack(name), ReadBack(avatar), None));
  }

  /** The position of the closing `user` tag in the events of `toXML`. */
  function UserEnd(e: Identity): nat
  {
    2 + |ElementEvents(UserIdElementName, e.userId)| + |ElementEvents(UserNameElementName, e.userName)|
    + |ElementEvents(UserAvatarUrlElementName, e.userAvatarUrl)|
  }

  /** Where the children of `user` lie in the events of `toXML`. */
  lemma UserLayout(e: Identity)
    ensures var evs := Events(e);
            var b := 2 + |ElementEvents(UserIdElementName, e.userId)|;
            var c := b + |ElementEvents(UserNameElementName, e.userName)|;
            && ElementAt(evs, 2, UserIdElementName, e.userId)
            && ElementAt(evs, b, UserNameElementName, e.userName)
            && ElementAt(evs, c, UserAvatarUrlElementName, e.userAvatarUrl)
  {
  }

  /** Where `user` closes and `group` lies in the events of `toXML`. */
  lemma GroupLayout(e: Identity)
    ensures var evs := Events(e);
            var u := UserEnd(e);
            && u + |ElementEvents(GroupElementName, e.groupId)| + 2 == |evs|
            && evs[1] == StartTag(UserElementName, Namespace, [])
            && evs[u] == EndTag(UserElementName, Namespace) && evs[|evs| - 1] == EndTag(ElementName, Namespace)
            && ElementAt(evs, u + 1, GroupElementName, e.groupId)
  {
  }

  /** Inside `user`: the id, name and avatar URL are read back in turn. */
  lemma ScanUser(evs: seq<Event>, id: string, name: string, avatar: string)
    requires var b := 2 + |ElementEvents(UserIdElementName, id)|;
             var c := b + |ElementEvents(UserNameElementName, name)|;
             && ElementAt(evs, 2, UserIdElementName, id)
             && ElementAt(evs, b, UserNameElementName, name)
             && ElementAt(evs, c, UserAvatarUrlElementName, avatar)
    ensures Scan(evs, 1, UserElementName, Fields(None, None, None, None))
         == Scan(evs, 1 + |ElementEvents(UserIdElementName, id)| + |ElementEvents(UserNameElementName, name)|
                      + |ElementEvents(UserAvatarUrlElementName, avatar)|,
                 UserAvatarUrlElementName, Fields(ReadBack(id), ReadBack(name), ReadBack(avatar), None))
  {
    var b := 2 + |ElementEvents(UserIdElementName, id)|;
    var c := b + |ElementEvents(UserNameElementName, name)|;
    var u := c + |ElementEvents(UserAvatarUrlElementName, avatar)|;
    var f0 := Fields(None, None, None, None);
    var f1 := f0.(userId := ReadBack(id));
    var f2 := f1.(userName := ReadBack(name));
    var f3 := f2.(userAvatarUrl := ReadBack(avatar));
    assert Scan(evs, 1, UserElementName, f0) == Scan(evs, b - 1, UserIdElementName, f1) by {
      ScanElement(evs, 2, UserIdElementName, id, UserElementName, f0);
    }
    assert Scan(evs, b - 1, UserIdElementName, f1) == Scan(evs, c - 1, UserNameElementName, f2) by {
      ScanElement(evs, b, UserNameElementName, name, UserIdElementName, f1);
    }
    assert Scan(evs, c - 1, UserNameElementName, f2) == Scan(evs, u - 1, UserAvatarUrlElementName, f3) by {
      ScanElement(evs, c, UserAvatarUrlElementName, avatar, UserNameElementName, f2);
    }
  }

  /** After `user`: the group id is read back and the closing `identity` tag ends the loop. */
  lemma ScanGroup(evs: seq<Event>, u: nat, group: string, f: Fields)
    requires 1 <= u && u + |ElementEvents(GroupElementName, group)| + 2 == |evs|
    requires evs[u] == EndTag(UserElementName, Namespace) && evs[|evs| - 1] == EndTag(ElementName, Namespace)
    requires ElementAt(evs, u + 1, GroupElementName, group)
    requires f.groupId.None?
    ensures Scan(evs, u - 1, UserAvatarUrlElementName, f) == Success((f.(groupId := ReadBack(group)), |evs| - 1))
  {
    var z := |evs| - 1;
    var g := f.(groupId := ReadBack(group));
    assert Scan(evs, u - 1, UserAvatarUrlElementName, f) == Scan(evs, u, UserElementName, f);
    assert (if group == "" then f else Assign(f, GroupElementName, group)) == g;
    ScanElement(evs, u + 1, GroupElementName, group, UserElementName, f);
    assert Scan(evs, z - 1, GroupElementName, g) == Success((g, z));
  }

  /** The events of a child element with text `text` stand at `at` in `evs`. */
  predicate ElementAt(evs: seq<Event>, at: nat, name: string, text: string)
  {
    var n := |ElementEvents(name, text)|;
    && at + n <= |evs|
    && evs[at] == StartTag(name, Namespace, [])
    && (text != "" ==> evs[at + 1] == Text(text))
    && evs[at + n - 1] == EndTag(name, Namespace)
  }

  /**
   * Reading one child element whose start tag is at `at`: its text, when
   * there is one, goes to the field the element names, and the loop carries
   * on after the element's end tag with that tag in effect.
   */
  lemma ScanElement(evs: seq<Event>, at: nat, name: string, text: string, tag: string, f: Fields)
    requires 1 <= at && ElementAt(evs, at, name, text)
    requires name != ElementName
    ensures Scan(evs, at - 1, tag, f)
         == Scan(evs, at + |ElementEvents(name, text)| - 1, name, if text == "" then f else Assign(f, name, text))
  {
    assert Scan(evs, at - 1, tag, f) == Scan(evs, at, name, f);
    if text != "" {
      assert Scan(evs, at, name, f) == Scan(evs, at + 1, name, Assign(f, name, text));
    }
  }

  /**
   * The tag in effect once the parser has read event `i`, starting from
   * `currentTag` at `pos`: the name of the latest start or end tag read.
   */
  ghost function TagInEffect(events: seq<Event>, pos: nat, currentTag: string, i: nat): string
    requires pos <= i < |events|
    decreases i
  {
    if i == pos then currentTag
    else
      var e := events[i];
      if e.StartTag? || e.EndTag? then e.name else TagInEffect(events, pos, currentTag, i - 1)
  }

  /**
   * The loop ends at the first event after which the tag in effect is
   * `identity`, and fails with a parser error exactly when no such event
   * is left in the document.
   */
  lemma {:induction false} ScanStopsWhereIdentityInEffect(events: seq<Event>, pos: nat, currentTag: string, f: Fields)
    requires pos < |events|
    ensures var r := Scan(events, pos, currentTag, f);
      r.Success? ==> TagInEffect(events, pos, currentTag, r.value.1) == ElementName
                     && forall i :: pos < i < r.value.1 ==> TagInEffect(events, pos, currentTag, i) != ElementName
    ensures Scan(events, pos, currentTag, f).Failure? <==>
      forall i :: pos < i < |events| ==> TagInEffect(events, pos, currentTag, i) != ElementName
    decreases |events| - pos
  {
    if pos + 1 < |events| {
      var p := pos + 1;
      var e := events[p];
      var tag := if e.StartTag? || e.EndTag? then e.name else currentTag;
      var f' := if e.Text? then Assign(f, currentTag, e.text) else f;
      assert TagInEffect(events, pos, currentTag, p) == tag;
      if tag != ElementName {
        assert Scan(events, pos, currentTag, f) == Scan(events, p, tag, f');
        ScanStopsWhereIdentityInEffect(events, p, tag, f');
        TagInEffectShift(events, pos, currentTag, p);
        if Scan(events, p, tag, f').Failure? {
          forall i | pos < i < |events|
            ensures TagInEffect(events, pos, currentTag, i) != ElementName
          {
            if i > p {
              assert TagInEffect(events, p, tag, i) != ElementName;
            }
          }
        } else {
          var q := Scan(events, p, tag, f').value.1;
          assert TagInEffect(events, p, tag, q) == ElementName;
        }
      }
    }
  }

  /** Starting one event later from the tag in effect there gives the same tags in effect. */
  lemma {:induction false} TagInEffectShift(events: seq<Event>, pos: nat, currentTag: string, p: nat)
    requires pos < p < |events| && p == pos + 1
    ensures forall i :: p <= i < |events| ==>
      TagInEffect(events, p, TagInEffect(events, pos, currentTag, p), i) == TagInEffect(events, pos, currentTag, i)
  {
    forall i | p <= i < |events|
      ensures TagInEffect(events, p, TagInEffect(events, pos, currentTag, p), i) == TagInEffect(events, pos, currentTag, i)
    {
      TagInEffectShiftAt(events, pos, currentTag, p, i);
    }
  }

  lemma {:induction false} TagInEffectShiftAt(events: seq<Event>, pos: nat, currentTag: string, p: nat, i: nat)
    requires pos < p <= i < |events| && p == pos + 1
    ensures TagInEffect(events, p, TagInEffect(events, pos, currentTag, p), i) == TagInEffect(events, pos, currentTag, i)
    decreases i
  {
    if i > p {
      TagInEffectShiftAt(events, pos, currentTag, p, i - 1);
    }
  }

  /**
   * A text (such as white space) straight after the opening tag ends the
   * loop at once, so the provider returns null.
   */
  lemma LeadingTextYieldsNull(e: Identity, space: string)
    ensures Parse([Events(e)[0], Text(space)] + Events(e)[1..], 0) == Success((None, 1))
  {
    var evs := [Events(e)[0], Text(space)] + Events(e)[1..];
    assert evs[1] == Text(space);
    assert Scan(evs, 0, ElementName, Fields(None, None, None, None)) == Success((Fields(None, None, None, None), 1));
  }
}
