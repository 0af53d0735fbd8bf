/**
 * A Jingle session (XEP-0166): its state machine fresh -> pending ->
 * active -> ended, and the maps of active and proposed contents keyed by
 * content name. Sending stanzas is abstracted into a success flag.
 */
module JingleSession {
  import opened Wrappers
  import opened JavaValues

  /** The session states, in the order a session goes through them. */
  datatype SessionState = Fresh | Pending | Active | Ended

  /** Which end of the session this party is. */
  datatype Role = Initiator | Responder

  /** A content: its name and whether it carries a security element. */
  datatype Content = Content(name: string, secured: bool)

  /** The stanza actions this model builds. */
  datatype Action = SessionInitiate | SessionAccept

  /** An outgoing session stanza: its action and the contents it lists. */
  datatype Stanza = Stanza(action: Action, contents: set<Content>)

  /** Every content is filed under its own name. */
  ghost predicate KeyedByName(m: map<string, Content>)
  {
    forall n :: n in m ==> m[n].name == n
  }

  /** No two contents of the list share a name. */
  predicate DistinctNames(cs: seq<Content>)
  {
    forall i, j :: 0 <= i < j < |cs| ==> cs[i].name != cs[j].name
  }

  /** The names of a list of contents. */
  function Names(cs: seq<Content>): (r: set<string>)
    ensures forall c :: c in cs ==> c.name in r
    ensures forall n :: n in r ==> exists i :: 0 <= i < |cs| && cs[i].name == n
  {
    set i | 0 <= i < |cs| :: cs[i].name
  }

  /**
   * Adding the contents of a list one by one, left to right, as
   * `addContentImpl` does: a name already present is an
   * IllegalArgumentException.
   */
  function AddAll(m: map<string, Content>, cs: seq<Content>): Result<map<string, Content>, Exception>
    decreases |cs|
  {
    if cs == [] then Success(m)
    else
      match AddAll(m, cs[..|cs| - 1])
      case Failure(e) => Failure(e)
      case Success(m') =>
        var c := cs[|cs| - 1];
        if c.name in m' then Failure(IllegalArgument) else Success(m'[c.name := c])
  }

  /** A list with one more content has distinct names iff the new name is new. */
  lemma DistinctNamesSnoc(init: seq<Content>, c: Content)
    ensures DistinctNames(init + [c]) <==> DistinctNames(init) && c.name !in Names(init)
  {
    var cs := init + [c];
    if c.name in Names(init) {
      var i :| 0 <= i < |init| && init[i].name == c.name;
      assert cs[i] == init[i] && cs[|init|] == c;
    }
    if DistinctNames(cs) {
      forall i, j | 0 <= i < j < |init| ensures init[i].name != init[j].name {
        assert cs[i] == init[i] && cs[j] == init[j];
      }
    }
    if DistinctNames(init) && c.name !in Names(init) {
      forall i, j | 0 <= i < j < |cs| ensures cs[i].name != cs[j].name {
        assert cs[i] == init[i];
        if j < |init| {
          assert cs[j] == init[j];
        }
      }
    }
  }

  /** The names of a list with one more content. */
  lemma NamesSnoc(init: seq<Content>, c: Content)
    ensures Names(init + [c]) == Names(init) + {c.name}
  {
    var cs := init + [c];
    forall n | n in Names(cs) ensures n in Names(init) + {c.name} {
      var i :| 0 <= i < |cs| && cs[i].name == n;
      if i < |init| {
        assert cs[i] == init[i];
      }
    }
    forall n | n in Names(init) ensures n in Names(cs) {
      var i :| 0 <= i < |init| && init[i].name == n;
      assert cs[i] == init[i];
    }
    assert cs[|init|] == c;
  }

  /**
   * Adding a list to an empty map succeeds exactly when its names are
   * distinct, and then holds exactly those names; a repeated name is an
   * IllegalArgumentException.
   */
  lemma {:induction false} AddAllSucceedsIffDistinct(cs: seq<Content>)
    ensures AddAll(map[], cs).Success? <==> DistinctNames(cs)
    ensures AddAll(map[], cs).Success? ==> AddAll(map[], cs).value.Keys == Names(cs)
    ensures AddAll(map[], cs).Failure? ==> AddAll(map[], cs).error == IllegalArgument
  {
    if cs != [] {
      var init := cs[..|cs| - 1];
      var c := cs[|cs| - 1];
      assert cs == init + [c];
      AddAllSucceedsIffDistinct(init);
      DistinctNamesSnoc(init, c);
      NamesSnoc(init, c);
    }
  }

  /** One more content: `AddAll` unfolded once at the end of the list. */
  lemma AddAllSnoc(init: seq<Content>, c: Content)
    ensures AddAll(map[], init + [c]) ==
      match AddAll(map[], init)
      case Failure(e) => Failure(e)
      case Success(m) => if c.name in m then Failure(IllegalArgument) else Success(m[c.name := c])
  {
    assert (init + [c])[..|init + [c]| - 1] == init;
  }

  /** On success every content of the list is filed under its own name. */
  lemma {:induction false} AddAllFilesByName(cs: seq<Content>)
    requires AddAll(map[], cs).Success?
    ensures KeyedByName(AddAll(map[], cs).value)
    ensures forall c :: c in cs ==> c.name in AddAll(map[], cs).value && AddAll(map[], cs).value[c.name] == c
  {
    if cs != [] {
      var init := cs[..|cs| - 1];
      var c := cs[|cs| - 1];
      assert cs == init + [c];
      AddAllSnoc(init, c);
      AddAllFilesByName(init);
      var m := AddAll(map[], init).value;
      var m2 := m[c.name := c];
      assert AddAll(map[], cs).value == m2;
      forall d | d in cs ensures d.name in m2 && m2[d.name] == d {
        if d != c {
          assert d in init;
        }
      }
    }
  }

  /**
   * `getSoleContentOrThrow` on a request's contents: none is null, more
   * than one is an IllegalStateException.
   */
  function SoleContent(cs: seq<Content>): (r: Result<Option<Content>, Exception>)
    ensures r == Success(None) <==> cs == []
    ensures r.Success? && r.value.Some? <==> |cs| == 1
    ensures r.Success? && r.value.Some? ==> r.value.value == cs[0]
    ensures r.Failure? ==> r.error == IllegalState
  {
    if cs == [] then Success(None)
    else if |cs| > 1 then Failure(IllegalState)
    else Success(Some(cs[0]))
  }

  /** Whether a map holds exactly one entry. */
  lemma SingletonMap(m: map<string, Content>, n: string)
    requires n in m && |m| == 1
    ensures m == map[n := m[n]]
  {
    var rest := m.Keys - {n};
    assert |m.Keys| == |rest| + 1;
    assert rest == {};
    assert m.Keys == {n};
  }

  /** A non-empty map has a key. */
  lemma NonEmptyMapHasKey(m: map<string, Content>)
    requires |m| > 0
    ensures exists n :: n in m
  {
    assert m.Keys != {};
  }

  /**
   * The contents that survive a session-accept whose sole content carries
   * no security: every secured content is dropped.
   */
  ghost function WithoutSecured(m: map<string, Content>): (r: map<string, Content>)
    ensures r.Keys <= m.Keys
    ensures forall n :: n in m ==> (n in r <==> !m[n].secured)
    ensures forall n :: n in r ==> r[n] == m[n]
  {
    map n | n in m && !m[n].secured :: m[n]
  }

  /**
   * The effect of `handleContentAccept` for a list of names, processed in
   * order: each name is moved from the proposed map to the active map; the
   * first name that is not proposed (any more) is an AssertionError, with
   * the moves before it kept.
   */
  function AcceptAll(active: map<string, Content>, proposed: map<string, Content>, names: seq<string>)
    : (r: (map<string, Content>, map<string, Content>, Outcome<Exception>))
    decreases |names|
  {
    if names == [] then (active, proposed, Pass)
    else if names[0] !in proposed then (active, proposed, Fail(Assertion))
    else
      var c := proposed[names[0]];
      AcceptAll(active[c.name := c], proposed - {names[0]}, names[1..])
  }

  /** The effect of `handleContentReject`: each name is dropped from the proposed map, in order. */
  function RejectAll(proposed: map<string, Content>, names: seq<string>)
    : (r: (map<string, Content>, Outcome<Exception>))
    decreases |names|
  {
    if names == [] then (proposed, Pass)
    else if names[0] !in proposed then (proposed, Fail(Assertion))
    else RejectAll(proposed - {names[0]}, names[1..])
  }

  /** Whether the names are pairwise distinct. */
  predicate Distinct(names: seq<string>)
  {
    forall i, j :: 0 <= i < j < |names| ==> names[i] != names[j]
  }

  /** A list of names is distinct iff its head is not repeated and its tail is distinct. */
  lemma DistinctCons(names: seq<string>)
    requires names != []
    ensures Distinct(names) <==> names[0] !in names[1..] && Distinct(names[1..])
  {
    var rest := names[1..];
    if Distinct(names) {
      forall i, j | 0 <= i < j < |rest| ensures rest[i] != rest[j] {
        assert rest[i] == names[i + 1] && rest[j] == names[j + 1];
      }
      forall i | 0 <= i < |rest| ensures rest[i] != names[0] {
        assert rest[i] == names[i + 1];
      }
    }
    if names[0] !in rest && Distinct(rest) {
      forall i, j | 0 <= i < j < |names| ensures names[i] != names[j] {
        assert names[j] == rest[j - 1];
        if i > 0 {
          assert names[i] == rest[i - 1];
        }
      }
    }
  }

  /** Accepting succeeds exactly when every name is proposed and none is repeated. */
  lemma {:induction false} AcceptAllPassIff(active: map<string, Content>, proposed: map<string, Content>, names: seq<string>)
    ensures var r := AcceptAll(active, proposed, names);
      && (r.2 == Pass <==> (forall n :: n in names ==> n in proposed) && Distinct(names))
      && (r.2.Fail? ==> r.2.error == Assertion)
    decreases |names|
  {
    if names != [] && names[0] in proposed {
      var c := proposed[names[0]];
      AcceptAllPassIff(active[c.name := c], proposed - {names[0]}, names[1..]);
      DistinctCons(names);
      assert names == [names[0]] + names[1..];
    }
  }

  /** Accepting loses and invents no content, and keeps both maps keyed by name. */
  lemma {:induction false} AcceptAllConserves(active: map<string, Content>, proposed: map<string, Content>, names: seq<string>)
    requires KeyedByName(active) && KeyedByName(proposed)
    ensures var r := AcceptAll(active, proposed, names);
      && r.0.Keys + r.1.Keys == active.Keys + proposed.Keys
      && KeyedByName(r.0) && KeyedByName(r.1)
    decreases |names|
  {
    if names != [] && names[0] in proposed {
      var c := proposed[names[0]];
      AcceptAllConserves(active[c.name := c], proposed - {names[0]}, names[1..]);
    }
  }

  /** The set of the names in a list, split at its head. */
  lemma NameSetCons(names: seq<string>)
    requires names != []
    ensures (set n | n in names) == {names[0]} + (set n | n in names[1..])
  {
    assert names == [names[0]] + names[1..];
  }

  /** On success, exactly the named contents have moved from proposed to active. */
  lemma {:induction false} AcceptAllOnPass(active: map<string, Content>, proposed: map<string, Content>, names: seq<string>)
    requires KeyedByName(proposed)
    requires AcceptAll(active, proposed, names).2 == Pass
    ensures var r := AcceptAll(active, proposed, names);
      && r.1 == proposed - (set n | n in names)
      && r.0.Keys == active.Keys + (set n | n in names)
    decreases |names|
  {
    if names != [] {
      var c := proposed[names[0]];
      AcceptAllOnPass(active[c.name := c], proposed - {names[0]}, names[1..]);
      NameSetCons(names);
    }
  }

  /**
   * Rejecting succeeds exactly when every name is proposed and none is
   * repeated; on success exactly the named contents are gone.
   */
  lemma {:induction false} RejectAllDrops(proposed: map<string, Content>, names: seq<string>)
    ensures var r := RejectAll(proposed, names);
      && (r.1 == Pass <==> (forall n :: n in names ==> n in proposed) && Distinct(names))
      && (r.1.Fail? ==> r.1.error == Assertion)
      && r.0.Keys <= proposed.Keys
      && (forall n :: n in r.0 ==> r.0[n] == proposed[n])
      && (r.1 == Pass ==> r.0 == proposed - (set n | n in names))
    decreases |names|
  {
    if names != [] && names[0] in proposed {
      var rest := names[1..];
      RejectAllDrops(proposed - {names[0]}, rest);
      DistinctCons(names);
      NameSetCons(names);
      assert names == [names[0]] + rest;
    }
  }

  /** One session, with its state, role and content maps. */
  class Session {
    var state: SessionState
    const role: Role
    var contents: map<string, Content>
    var proposed: map<string, Content>

    /** Both maps file each content under its own name. */
    ghost predicate Valid()
      reads this
    {
      KeyedByName(contents) && KeyedByName(proposed)
    }

    /** The general constructor: a fresh session with no contents yet. */
    constructor (role: Role)
      ensures Valid() && this.role == role && state == Fresh && contents == map[] && proposed == map[]
    {
      this.role := role;
      state := Fresh;
      contents := map[];
      proposed := map[];
    }

    /**
     * `addContentImpl`: files a content under its name; a name already
     * present is an IllegalArgumentException and changes nothing.
     */
    method AddContentImpl(c: Content) returns (outcome: Outcome<Exception>)
      requires Valid()
      modifies this
      ensures Valid() && state == old(state) && proposed == old(proposed)
      ensures c.name in old(contents) ==> outcome == Fail(IllegalArgument) && contents == old(contents)
      ensures c.name !in old(contents) ==> outcome == Pass && contents == old(contents)[c.name := c]
    {
      if c.name in contents {
        return Fail(IllegalArgument);
      }
      contents := contents[c.name := c];
      outcome := Pass;
    }

    /**
     * `getSoleContentOrThrow`: null when there are no contents, an
     * IllegalStateException when there are several, else the only one.
     */
    method GetSoleContentOrThrow() returns (r: Result<Option<Content>, Exception>)
      requires Valid()
      ensures r == Success(None) <==> contents == map[]
      ensures r.Failure? <==> |contents| > 1
      ensures r.Failure? ==> r.error == IllegalState
      ensures r.Success? && r.value.Some? ==> contents == map[r.value.value.name := r.value.value]
    {
      if |contents| == 0 {
        assert contents == map[];
        return Success(None);
      }
      if |contents| > 1 {
        return Failure(IllegalState);
      }
      NonEmptyMapHasKey(contents);
      var n :| n in contents;
      SingletonMap(contents, n);
      r := Success(Some(contents[n]));
    }

    /**
     * `getSoleAffectedContentOrThrow`: the request must name exactly one
     * content, and it must be an active one; otherwise an AssertionError.
     */
    method GetSoleAffectedContentOrThrow(names: seq<string>) returns (r: Result<Content, Exception>)
      requires Valid()
      ensures r.Success? <==> |names| == 1 && names[0] in contents
      ensures r.Success? ==> r.value == contents[names[0]] && r.value.name == names[0]
      ensures r.Failure? ==> r.error == Assertion
    {
      if |names| != 1 {
        return Failure(Assertion);
      }
      if names[0] !in contents {
        return Failure(Assertion);
      }
      r := Success(contents[names[0]]);
    }

    /** `createSessionInitiate`: only an initiator builds one; it lists the active contents. */
    method CreateSessionInitiate() returns (r: Result<Stanza, Exception>)
      ensures role == Initiator ==> r == Success(Stanza(SessionInitiate, contents.Values))
      ensures role != Initiator ==> r == Failure(IllegalState)
    {
      if role != Initiator {
        return Failure(IllegalState);
      }
      r := Success(Stanza(SessionInitiate, contents.Values));
    }

    /** `createSessionAccept`: only a responder builds one; it lists the active contents. */
    method CreateSessionAccept() returns (r: Result<Stanza, Exception>)
      ensures role == Responder ==> r == Success(Stanza(SessionAccept, contents.Values))
      ensures role != Responder ==> r == Failure(IllegalState)
    {
      if role != Responder {
        return Failure(IllegalState);
      }
      r := Success(Stanza(SessionAccept, contents.Values));
    }

    /**
     * `sendInitiate`: only a fresh initiator sends a session-initiate; the
     * session is pending once the peer's result arrives (`sendOk`), and
     * otherwise keeps its state.
     */
    method SendInitiate(sendOk: bool) returns (outcome: Outcome<Exception>)
      requires Valid()
      modifies this
      ensures Valid() && contents == old(contents) && proposed == old(proposed)
      ensures old(state) != Fresh ==> outcome == Fail(IllegalState) && state == old(state)
      ensures old(state) == Fresh && role != Initiator ==> outcome == Fail(IllegalState) && state == Fresh
      ensures old(state) == Fresh && role == Initiator && !sendOk ==> outcome == Fail(NetworkError) && state == Fresh
      ensures outcome == Pass <==> old(state) == Fresh && role == Initiator && sendOk
      ensures outcome == Pass ==> state == Pending
    {
      if state != Fresh {
        return Fail(IllegalState);
      }
      var stanza := CreateSessionInitiate();
      if stanza.Failure? {
        return Fail(stanza.error);
      }
      if !sendOk {
        return Fail(NetworkError);
      }
      state := Pending;
      outcome := Pass;
    }

    /**
     * `sendAccept`: only a pending responder sends a session-accept; the
     * session is active once the peer's result arrives, and otherwise
     * keeps its state.
     */
    method SendAccept(sendOk: bool) returns (outcome: Outcome<Exception>)
      requires Valid()
      modifies this
      ensures Valid() && contents == old(contents) && proposed == old(proposed)
      ensures old(state) != Pending ==> outcome == Fail(IllegalState) && state == old(state)
      ensures old(state) == Pending && role != Responder ==> outcome == Fail(IllegalState) && state == Pending
      ensures old(state) == Pending && role == Responder && !sendOk ==> outcome == Fail(NetworkError) && state == Pending
      ensures outcome == Pass <==> old(state) == Pending && role == Responder && sendOk
      ensures outcome == Pass ==> state == Active
    {
      if state != Pending {
        return Fail(IllegalState);
      }
      var stanza := CreateSessionAccept();
      if stanza.Failure? {
        return Fail(stanza.error);
      }
      if !sendOk {
        return Fail(NetworkError);
      }
      state := Active;
      outcome := Pass;
    }

    /**
     * `handleSessionAccept`: the session becomes active. When the accept's
     * sole content has no security element, every secured content is
     * terminated and dropped. An accept with several contents is an
     * IllegalStateException, and one with none a NullPointerException, as
     * soon as a secured content is met; neither drops anything.
     */
    method HandleSessionAccept(accept: seq<Content>) returns (outcome: Outcome<Exception>)
      requires Valid()
      modifies this
      ensures Valid() && state == Active && proposed == old(proposed)
      ensures var secured := exists n :: n in old(contents) && old(contents)[n].secured;
        && (!secured ==> outcome == Pass && contents == old(contents))
        && (secured && |accept| > 1 ==> outcome == Fail(IllegalState) && contents == old(contents))
        && (secured && accept == [] ==> outcome == Fail(NullPointer) && contents == old(contents))
        && (secured && |accept| == 1 && accept[0].secured ==> outcome == Pass && contents == old(contents))
        && (secured && |accept| == 1 && !accept[0].secured ==>
              outcome == Pass && contents == WithoutSecured(old(contents)))
    {
      state := Active;
      var start := contents;
      var pending := contents.Keys;
      outcome := Pass;
      while pending != {}
        invariant Valid() && state == Active && proposed == old(proposed)
        invariant pending <= start.Keys && outcome == Pass
        invariant forall n :: n in start && n !in pending ==> !start[n].secured || |accept| == 1
        invariant |accept| == 1 && !accept[0].secured ==>
          contents == map n | n in start && (n in pending || !start[n].secured) :: start[n]
        invariant !(|accept| == 1 && !accept[0].secured) ==> contents == start
        decreases pending
      {
        var n :| n in pending;
        pending := pending - {n};
        if start[n].secured {
          var sole := SoleContent(accept);
          if sole.Failure? {
            return Fail(sole.error);
          }
          if sole.value.None? {
            return Fail(NullPointer);
          }
          if !sole.value.value.secured {
            contents := contents - {n};
          }
        }
      }
    }

    /**
     * `handleSessionTerminate`: the session is ended whatever happens
     * next. A missing reason is an AssertionError; then the sole content
     * is looked up: none is a NullPointerException and several an
     * IllegalStateException.
     */
    method HandleSessionTerminate(reason: Option<string>) returns (outcome: Outcome<Exception>)
      requires Valid()
      modifies this
      ensures Valid() && state == Ended && contents == old(contents) && proposed == old(proposed)
      ensures reason.None? ==> outcome == Fail(Assertion)
      ensures reason.Some? && contents == map[] ==> outcome == Fail(NullPointer)
      ensures reason.Some? && |contents| > 1 ==> outcome == Fail(IllegalState)
      ensures outcome == Pass <==> reason.Some? && |contents| == 1
    {
      state := Ended;
      if reason.None? {
        return Fail(Assertion);
      }
      var sole := GetSoleContentOrThrow();
      if sole.Failure? {
        return Fail(sole.error);
      }
      if sole.value.None? {
        return Fail(NullPointer);
      }
      outcome := Pass;
    }

    /**
     * `handleContentAccept`: moves the named contents from proposed to
     * active, in order (see `AcceptAll`, `AcceptAllPassIff`,
     * `AcceptAllConserves` and `AcceptAllOnPass`).
     */
    method HandleContentAccept(names: seq<string>) returns (outcome: Outcome<Exception>)
      requires Valid()
      modifies this
      ensures Valid() && state == old(state)
      ensures (contents, proposed, outcome) == AcceptAll(old(contents), old(proposed), names)
    {
      var i := 0;
      while i < |names|
        invariant 0 <= i <= |names| && Valid() && state == old(state)
        invariant AcceptAll(contents, proposed, names[i..]) == AcceptAll(old(contents), old(proposed), names)
      {
        assert names[i..][1..] == names[i + 1..];
        var accepted := if names[i] in proposed then Some(proposed[names[i]]) else None;
        if accepted.None? {
          return Fail(Assertion);
        }
        proposed := proposed - {accepted.value.name};
        contents := contents[accepted.value.name := accepted.value];
        i := i + 1;
      }
      assert names[i..] == [];
      outcome := Pass;
    }

    /**
     * `handleContentReject`: drops the named contents from the proposed
     * map, in order (see `RejectAll` and `RejectAllDrops`).
     */
    method HandleContentReject(names: seq<string>) returns (outcome: Outcome<Exception>)
      requires Valid()
      modifies this
      ensures Valid() && state == old(state) && contents == old(contents)
      ensures (proposed, outcome) == RejectAll(old(proposed), names)
    {
      var i := 0;
      while i < |names|
        invariant 0 <= i <= |names| && Valid() && state == old(state) && contents == old(contents)
        invariant RejectAll(proposed, names[i..]) == RejectAll(old(proposed), names)
      {
        assert names[i..][1..] == names[i + 1..];
        var rejected := if names[i] in proposed then Some(proposed[names[i]]) else None;
        if rejected.None? {
          return Fail(Assertion);
        }
        proposed := proposed - {rejected.value.name};
        i := i + 1;
      }
      assert names[i..] == [];
      outcome := Pass;
    }
  }

  /**
   * The responder constructor: a session for a received session-initiate.
   * Each of its contents is added in turn; a repeated name is an
   * IllegalArgumentException. The new session is pending.
   */
  method NewResponderSession(initiate: seq<Content>) returns (r: Result<Session, Exception>)
    ensures r.Success? <==> AddAll(map[], initiate).Success?
    ensures r.Failure? ==> r == Failure(IllegalArgument)
    ensures r.Success? ==> (fresh(r.value) && r.value.Valid() && r.value.role == Responder
      && r.value.state == Pending && r.value.proposed == map[]
      && r.value.contents == AddAll(map[], initiate).value)
  {
    var s := new Session(Responder);
    var i := 0;
    while i < |initiate|
      invariant 0 <= i <= |initiate| && s.Valid() && fresh(s)
      invariant s.role == Responder && s.state == Fresh && s.proposed == map[]
      invariant AddAll(map[], initiate[..i]) == Success(s.contents)
    {
      assert initiate[..i + 1][..i] == initiate[..i];
      var added := s.AddContentImpl(initiate[i]);
      if added.Fail? {
        AddAllFailurePersists(initiate, i + 1);
        return Failure(added.error);
      }
      i := i + 1;
    }
    assert initiate[..i] == initiate;
    s.state := Pending;
    r := Success(s);
  }

  /** Once adding a prefix fails, adding the whole list fails the same way. */
  lemma {:induction false} AddAllFailurePersists(cs: seq<Content>, k: nat)
    requires k <= |cs| && AddAll(map[], cs[..k]).Failure?
    ensures AddAll(map[], cs) == AddAll(map[], cs[..k])
    decreases |cs| - k
  {
    if k < |cs| {
      assert cs[..k + 1][..k] == cs[..k];
      AddAllFailurePersists(cs, k + 1);
    } else {
      assert cs[..k] == cs;
    }
  }
}
