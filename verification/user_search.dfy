/**
 * The provider for user-search IQs (XEP-0055): search fields and data-form
 * extensions of the query, and the result items turned into reported data
 * with a JID column first and one column per child element name.
 */
module UserSearch {
  import opened Wrappers
  import opened JavaValues
  import opened XmlEvents

  const QueryElement: string := "query"
  const ItemElement: string := "item"
  const InstructionsElement: string := "instructions"
  const DataFormsNamespace: string := "jabber:x:data"
  const JidVariable: string := "jid"

  /** The type of a reported-data column. */
  datatype FieldType = JidSingle | TextSingle

  /** A column of the reported data: its label (title), variable and type. */
  datatype Column = Column(title: string, variable: string, fieldType: FieldType)

  /** A field: its variable and its single (possibly null) value. */
  datatype Field = Field(variable: string, value: Option<string>)

  /** The search result: its columns and its rows of fields. */
  datatype ReportedData = ReportedData(columns: seq<Column>, rows: seq<seq<Field>>)

  /** An extension of the query, identified by its element name and namespace. */
  datatype Extension = Extension(name: string, namespace: string)

  /** The parsed IQ: the search fields, the extensions and the reported data (unset by default). */
  datatype UserSearchIq = UserSearchIq(fields: seq<Field>, extensions: seq<Extension>, data: Option<ReportedData>)

  /** The column every result starts with. */
  const JidColumn: Column := Column("JID", JidVariable, JidSingle)

  /** Whether some column has the variable `name`. */
  predicate HasVariable(columns: seq<Column>, name: string)
  {
    exists i :: 0 <= i < |columns| && columns[i].variable == name
  }

  /** No two columns share a variable. */
  predicate UniqueVariables(columns: seq<Column>)
  {
    forall i, j :: 0 <= i < j < |columns| ==> columns[i].variable != columns[j].variable
  }

  /** The column search of `parseItems`: whether a column already has the variable `name`. */
  method ColumnExists(columns: seq<Column>, name: string) returns (exists_: bool)
    ensures exists_ <==> HasVariable(columns, name)
  {
    exists_ := false;
    var i := 0;
    while i < |columns|
      invariant 0 <= i <= |columns|
      invariant exists_ <==> exists j :: 0 <= j < i && columns[j].variable == name
    {
      if columns[i].variable == name {
        exists_ := true;
      }
      i := i + 1;
    }
  }

  /** A column named after a child element, unless one already has its variable. */
  function AddColumnIfNew(data: ReportedData, name: string): (r: ReportedData)
  {
    if HasVariable(data.columns, name) then data
    else data.(columns := data.columns + [Column(name, name, TextSingle)])
  }

  /** Adding a column keeps the earlier ones, makes the variable present and keeps variables unique. */
  lemma AddColumnKeepsUnique(data: ReportedData, name: string)
    ensures var r := AddColumnIfNew(data, name);
      && r.rows == data.rows
      && r.columns[..|data.columns|] == data.columns
      && HasVariable(r.columns, name)
      && (UniqueVariables(data.columns) ==> UniqueVariables(r.columns))
  {
    var r := AddColumnIfNew(data, name);
    if !HasVariable(data.columns, name) {
      assert r.columns[|data.columns|].variable == name;
    }
  }

  /** The `jid` field added at an event with attributes (a start tag that has some). */
  function JidField(e: Event): (r: seq<Field>)
    ensures |r| <= 1
    ensures r != [] <==> e.StartTag? && e.attributes != []
    ensures r != [] ==> r == [Field(JidVariable, AttributeValue(e.attributes, JidVariable))]
  {
    if AttributeCount(e) > 0 then [Field(JidVariable, AttributeOf(e, JidVariable))] else []
  }

  /**
   * `n` rows that are all the one field list `fields`: the rows added since
   * the last `item` start tag, which hold the live list rather than a copy.
   */
  function Shared(fields: seq<Field>, n: nat): (r: seq<seq<Field>>)
    ensures |r| == n && forall i :: 0 <= i < n ==> r[i] == fields
  {
    if n == 0 then [] else Shared(fields, n - 1) + [fields]
  }

  /** The reported data once the rows sharing `fields` are read: `data`'s own rows, then those. */
  function WithShared(data: ReportedData, fields: seq<Field>, shared: nat): (r: ReportedData)
    ensures r.columns == data.columns && r.rows == data.rows + Shared(fields, shared)
  {
    data.(rows := data.rows + Shared(fields, shared))
  }

  /**
   * The loop of `parseItems` from the event at `pos`. A row is built on the
   * field list it is given, not on a copy, so the rows added since the last
   * `item` start tag keep growing with that list. The state is the data
   * with the rows that no longer share the live list, the live list
   * `fields`, and the number `shared` of rows that are that list.
   *
   * Each step first adds the `jid` field of the current event if it has
   * attributes, then advances. An `item` start begins a new list (the
   * sharing rows are then fixed), an `item` end adds a row sharing the
   * list, any other start tag is a field whose value is its text (and a
   * column if its name is new), and the `query` end tag finishes.
   */
  function ItemsScan(events: seq<Event>, pos: nat, data: ReportedData, fields: seq<Field>, shared: nat)
    : (r: Result<ReportedData, Exception>)
    requires pos < |events|
    ensures r.Failure? ==> r.error == ParserError
    decreases |events| - pos
  {
    var current := fields + JidField(events[pos]);
    match Next(events, pos)
    case Failure(err) => Failure(err)
    case Success(p) =>
      var e := events[p];
      if e.StartTag? && e.name == ItemElement then ItemsScan(events, p, WithShared(data, current, shared), [], 0)
      else if e.EndTag? && e.name == ItemElement then ItemsScan(events, p, data, current, shared + 1)
      else if e.StartTag? then
        match NextText(events, p)
        case Failure(err) => Failure(err)
        case Success((text, q)) =>
          ItemsScan(events, q, AddColumnIfNew(data, e.name), current + [Field(e.name, Some(text))], shared)
      else if e.EndTag? && e.name == QueryElement then Success(WithShared(data, current, shared))
      else ItemsScan(events, p, data, current, shared)
  }

  /** The items loop stops at the `query` end tag. */
  predicate StopsItems(e: Event)
  {
    e.EndTag? && e.name == QueryElement
  }

  /** A start tag inside an item: a field whose value the loop reads with `nextText`. */
  predicate IsValueStart(e: Event)
  {
    e.StartTag? && e.name != ItemElement
  }

  /**
   * The positions the items loop reads from `pos` on, in order: every event
   * up to the first `query` end tag, except the text and end tag of each
   * field element, which `nextText` consumes.
   */
  ghost function ItemsWalk(events: seq<Event>, pos: nat): (r: Result<seq<nat>, Exception>)
    decreases |events| - pos
  {
    match Next(events, pos)
    case Failure(err) => Failure(err)
    case Success(p) =>
      var e := events[p];
      if StopsItems(e) then Success([p])
      else
        var from := if IsValueStart(e) then
                      (match NextText(events, p) case Failure(err) => Failure(err) case Success((_, q)) => Success(q))
                    else Success(p);
        match from
        case Failure(err) => Failure(err)
        case Success(q) =>
          match ItemsWalk(events, q)
          case Failure(err) => Failure(err)
          case Success(w) => Success([p] + w)
  }

  /**
   * The walk starts right after `pos`, reads each event once in document
   * order, jumps only over a field's text and end tag, and stops at the
   * FIRST `query` end tag it reads.
   */
  lemma {:induction false} ItemsWalkShape(events: seq<Event>, pos: nat)
    requires ItemsWalk(events, pos).Success?
    ensures var w := ItemsWalk(events, pos).value;
      && |w| >= 1 && w[0] == pos + 1
      && (forall k :: 0 <= k < |w| ==> w[k] < |events|)
      && StopsItems(events[w[|w| - 1]])
      && (forall k :: 0 <= k < |w| - 1 ==> !StopsItems(events[w[k]]))
      && (forall k :: 0 <= k < |w| - 1 ==> ItemsStep(events, w[k], w[k + 1]))
    decreases |events| - pos
  {
    var p := pos + 1;
    var e := events[p];
    if !StopsItems(e) {
      var q := if IsValueStart(e) then NextText(events, p).value.1 else p;
      ItemsWalkShape(events, q);
      var w' := ItemsWalk(events, q).value;
      var w := [p] + w';
      assert ItemsStep(events, p, q + 1);
      assert forall k :: 1 <= k < |w| ==> w[k] == w'[k - 1];
    }
  }

  /**
   * From a read event at `a` the items loop reads `b` next: the event after
   * the end tag `nextText` stops at for a field element at `a`, else the
   * event after `a`.
   */
  predicate ItemsStep(events: seq<Event>, a: nat, b: nat)
    requires a < |events|
  {
    if IsValueStart(events[a])
    then NextText(events, a).Success? && NextText(events, a).value.1 + 1 == b
    else b == a + 1
  }

  /**
   * The items loop reads exactly the events of its walk, whatever the data
   * and fields so far: it succeeds iff the walk reaches a `query` end tag,
   * and otherwise fails with a parser error.
   */
  lemma {:induction false} ItemsScanFollowsWalk(events: seq<Event>, pos: nat, data: ReportedData, fields: seq<Field>, shared: nat)
    requires pos < |events|
    ensures ItemsScan(events, pos, data, fields, shared).Success? <==> ItemsWalk(events, pos).Success?
    decreases |events| - pos
  {
    if pos + 1 < |events| {
      var p := pos + 1;
      var e := events[p];
      var current := fields + JidField(events[pos]);
      if e.StartTag? && e.name == ItemElement {
        ItemsScanFollowsWalk(events, p, WithShared(data, current, shared), [], 0);
      } else if e.EndTag? && e.name == ItemElement {
        ItemsScanFollowsWalk(events, p, data, current, shared + 1);
      } else if e.StartTag? {
        if NextText(events, p).Success? {
          var (text, q) := NextText(events, p).value;
          ItemsScanFollowsWalk(events, q, AddColumnIfNew(data, e.name), current + [Field(e.name, Some(text))], shared);
        }
      } else if !StopsItems(e) {
        ItemsScanFollowsWalk(events, p, data, current, shared);
      }
    }
  }

  /** `parseItems` at the first `item` start tag. */
  function ParseItems(events: seq<Event>, pos: nat): Result<ReportedData, Exception>
    requires pos < |events|
  {
    ItemsScan(events, pos, ReportedData([JidColumn], []), [], 0)
  }

  /**
   * The loop keeps the columns it started with at the front, adds only
   * text columns titled by their variable, keeps variables unique, and
   * only appends rows.
   */
  lemma {:induction false} ItemsScanKeepsColumns(events: seq<Event>, pos: nat, data: ReportedData, fields: seq<Field>, shared: nat)
    requires pos < |events| && ItemsScan(events, pos, data, fields, shared).Success?
    ensures var r := ItemsScan(events, pos, data, fields, shared).value;
      && |r.columns| >= |data.columns| && r.columns[..|data.columns|] == data.columns
      && (UniqueVariables(data.columns) ==> UniqueVariables(r.columns))
      && |r.rows| >= |data.rows| && r.rows[..|data.rows|] == data.rows
    decreases |events| - pos
  {
    var current := fields + JidField(events[pos]);
    var p := pos + 1;
    var e := events[p];
    if e.StartTag? && e.name == ItemElement {
      var d := WithShared(data, current, shared);
      ItemsScanKeepsColumns(events, p, d, [], 0);
      var r := ItemsScan(events, p, d, [], 0).value;
      assert r.rows[..|data.rows|] == r.rows[..|d.rows|][..|data.rows|];
    } else if e.EndTag? && e.name == ItemElement {
      ItemsScanKeepsColumns(events, p, data, current, shared + 1);
    } else if e.StartTag? {
      var (text, q) := NextText(events, p).value;
      var d := AddColumnIfNew(data, e.name);
      AddColumnKeepsUnique(data, e.name);
      ItemsScanKeepsColumns(events, q, d, current + [Field(e.name, Some(text))], shared);
      var r := ItemsScan(events, q, d, current + [Field(e.name, Some(text))], shared).value;
      assert r.columns[..|data.columns|] == r.columns[..|d.columns|][..|data.columns|];
    } else if e.EndTag? && e.name == QueryElement {
      assert ItemsScan(events, pos, data, fields, shared).value.rows[..|data.rows|] == data.rows;
    } else {
      ItemsScanKeepsColumns(events, p, data, current, shared);
    }
  }

  /** The reported data of `parseItems` has the JID column first and no two columns with one variable. */
  lemma ParseItemsColumns(events: seq<Event>, pos: nat)
    requires pos < |events| && ParseItems(events, pos).Success?
    ensures var d := ParseItems(events, pos).value;
      |d.columns| >= 1 && d.columns[0] == JidColumn && UniqueVariables(d.columns)
  {
    ItemsScanKeepsColumns(events, pos, ReportedData([JidColumn], []), [], 0);
  }

  /**
   * An example: one item with a `jid` attribute and one child yields one
   * row holding the `jid` field and the child's field, and a column for
   * the child.
   */
  lemma ParseItemsOneRow(jid: string, child: string, text: string)
    requires child != ItemElement && child != JidVariable
    ensures var events := [
        StartTag(ItemElement, "", [Attribute(JidVariable, jid)]),
        StartTag(child, "", []), Text(text), EndTag(child, ""),
        EndTag(ItemElement, ""), EndTag(QueryElement, "")];
      ParseItems(events, 0) == Success(ReportedData(
        [JidColumn, Column(child, child, TextSingle)],
        [[Field(JidVariable, Some(jid)), Field(child, Some(text))]]))
  {
    var events := [
        StartTag(ItemElement, "", [Attribute(JidVariable, jid)]),
        StartTag(child, "", []), Text(text), EndTag(child, ""),
        EndTag(ItemElement, ""), EndTag(QueryElement, "")];
    var fields := [Field(JidVariable, Some(jid)), Field(child, Some(text))];
    var columns := [JidColumn, Column(child, child, TextSingle)];
    var result := ReportedData(columns, [fields]);
    assert !HasVariable([JidColumn], child);
    assert Shared(fields, 1) == [fields];
    assert fields + JidField(events[4]) == fields;
    assert ItemsScan(events, 4, ReportedData(columns, []), fields, 1) == Success(result);
    assert fields + JidField(events[3]) == fields;
    assert ItemsScan(events, 3, ReportedData(columns, []), fields, 0) == Success(result);
    assert AttributeValue([Attribute(JidVariable, jid)], JidVariable) == Some(jid);
    assert [] + JidField(events[0]) == [Field(JidVariable, Some(jid))];
    assert [Field(JidVariable, Some(jid))] + [Field(child, Some(text))] == fields;
    assert NextText(events, 1) == Success((text, 3));
    assert AddColumnIfNew(ReportedData([JidColumn], []), child) == ReportedData(columns, []);
    assert ItemsScan(events, 0, ReportedData([JidColumn], []), [], 0) == Success(result);
  }

  /**
   * An example of a row sharing the live field list: a child element after
   * an item's end tag, with no `item` start tag in between, still lands in
   * that item's row.
   */
  lemma ParseItemsRowSharesFields(jid: string, x: string, t1: string, y: string, t2: string)
    requires x != ItemElement && x != JidVariable && y != ItemElement && y != JidVariable && x != y
    ensures var events := [
        StartTag(ItemElement, "", [Attribute(JidVariable, jid)]),
        StartTag(x, "", []), Text(t1), EndTag(x, ""),
        EndTag(ItemElement, ""),
        StartTag(y, "", []), Text(t2), EndTag(y, ""),
        EndTag(QueryElement, "")];
      ParseItems(events, 0) == Success(ReportedData(
        [JidColumn, Column(x, x, TextSingle), Column(y, y, TextSingle)],
        [[Field(JidVariable, Some(jid)), Field(x, Some(t1)), Field(y, Some(t2))]]))
  {
    var events := [
        StartTag(ItemElement, "", [Attribute(JidVariable, jid)]),
        StartTag(x, "", []), Text(t1), EndTag(x, ""),
        EndTag(ItemElement, ""),
        StartTag(y, "", []), Text(t2), EndTag(y, ""),
        EndTag(QueryElement, "")];
    var jidField := Field(JidVariable, Some(jid));
    var one := [JidColumn, Column(x, x, TextSingle)];
    var two := one + [Column(y, y, TextSingle)];
    var row := [jidField, Field(x, Some(t1)), Field(y, Some(t2))];
    var result := ReportedData(two, [row]);
    assert Shared(row, 1) == [row];
    assert row + JidField(events[7]) == row;
    assert ItemsScan(events, 7, ReportedData(two, []), row, 1) == Success(result);
    assert NextText(events, 5) == Success((t2, 7));
    assert !HasVariable(one, y) by {
      assert one[0].variable != y && one[1].variable != y;
    }
    assert AddColumnIfNew(ReportedData(one, []), y) == ReportedData(two, []);
    assert [jidField, Field(x, Some(t1))] + JidField(events[4]) + [Field(y, Some(t2))] == row;
    assert ItemsScan(events, 4, ReportedData(one, []), [jidField, Field(x, Some(t1))], 1) == Success(result);
    assert [jidField, Field(x, Some(t1))] + JidField(events[3]) == [jidField, Field(x, Some(t1))];
    assert ItemsScan(events, 3, ReportedData(one, []), [jidField, Field(x, Some(t1))], 0) == Success(result);
    assert AttributeValue([Attribute(JidVariable, jid)], JidVariable) == Some(jid);
    assert [] + JidField(events[0]) == [jidField];
    assert NextText(events, 1) == Success((t1, 3));
    assert [jidField] + [Field(x, Some(t1))] == [jidField, Field(x, Some(t1))];
    assert !HasVariable([JidColumn], x);
    assert AddColumnIfNew(ReportedData([JidColumn], []), x) == ReportedData(one, []);
    assert ItemsScan(events, 0, ReportedData([JidColumn], []), [], 0) == Success(result);
    assert two == [JidColumn, Column(x, x, TextSingle), Column(y, y, TextSingle)];
  }

  /**
   * One turn of `parseItems`' loop from the event at `p`: either the scan
   * goes on from `q` with the new state, or it stops with `stop`.
   */
  method ItemsTurn(events: seq<Event>, p: nat, data: ReportedData, fields: seq<Field>, shared: nat)
    returns (q: nat, data': ReportedData, fields': seq<Field>, shared': nat, stop: Option<Result<ReportedData, Exception>>)
    requires p < |events|
    ensures stop.Some? ==> stop.value == ItemsScan(events, p, data, fields, shared)
    ensures stop.None? ==> p < q < |events| && ItemsScan(events, q, data', fields', shared') == ItemsScan(events, p, data, fields, shared)
  {
    q, data', fields', shared', stop := p, data, fields, shared, None;
    if AttributeCount(events[p]) > 0 {
      var jid := AttributeOf(events[p], JidVariable);
      fields' := fields' + [Field(JidVariable, jid)];
    }
    assert fields' == fields + JidField(events[p]);
    if p + 1 >= |events| {
      stop := Some(Failure(ParserError));
      return;
    }
    q := p + 1;
    var e := events[q];
    if e.StartTag? && e.name == ItemElement {
      data' := WithShared(data, fields', shared);
      fields' := [];
      shared' := 0;
    } else if e.EndTag? && e.name == ItemElement {
      shared' := shared + 1;
    } else if e.StartTag? {
      var name := e.name;
      var next := NextText(events, q);
      if next.Failure? {
        stop := Some(Failure(next.error));
        return;
      }
      var value := next.value.0;
      q := next.value.1;
      fields' := fields' + [Field(name, Some(value))];
      var exists_ := ColumnExists(data.columns, name);
      if !exists_ {
        data' := data.(columns := data.columns + [Column(name, name, TextSingle)]);
      }
      assert data' == AddColumnIfNew(data, name);
    } else if e.EndTag? && e.name == QueryElement {
      stop := Some(Success(WithShared(data, fields', shared)));
    }
  }

  /** `parseItems`' `while (!done)` loop over the events. */
  method ParseItemsEvents(events: seq<Event>, pos: nat) returns (r: Result<ReportedData, Exception>)
    requires pos < |events|
    ensures r == ParseItems(events, pos)
  {
    var data := ReportedData([JidColumn], []);
    var fields: seq<Field> := [];
    var shared := 0;  // rows added since the last item start tag: each of them is `fields` itself
    var p := pos;
    var stop: Option<Result<ReportedData, Exception>> := None;
    while stop.None?
      invariant p < |events|
      invariant stop.None? ==> ItemsScan(events, p, data, fields, shared) == ParseItems(events, pos)
      invariant stop.Some? ==> stop.value == ParseItems(events, pos)
      decreases |events| - p, if stop.None? then 1 else 0
    {
      var q;
      q, data, fields, shared, stop := ItemsTurn(events, p, data, fields, shared);
      if stop.None? {
        p := q;
      }
    }
    r := stop.value;
  }

  /**
   * `parseExtensionElement` as far as the parser is concerned: from a start
   * tag (with `depth` elements open) to the position of its matching end
   * tag.
   */
  function SkipElement(events: seq<Event>, pos: nat, depth: nat): (r: Result<nat, Exception>)
    requires depth >= 1
    ensures r.Failure? ==> r.error == ParserError
    ensures r.Success? ==> pos < r.value < |events| && events[r.value].EndTag?
    decreases |events| - pos
  {
    match Next(events, pos)
    case Failure(err) => Failure(err)
    case Success(p) =>
      var e := events[p];
      if e.StartTag? then SkipElement(events, p, depth + 1)
      else if e.EndTag? then (if depth == 1 then Success(p) else SkipElement(events, p, depth - 1))
      else SkipElement(events, p, depth)
  }

  /**
   * The loop of `parse` from position `pos`: advance; the first `item`
   * start tag hands over to `parseItems` and ends the parse, its failure
   * leaving the data unset; `instructions` start tags are skipped; other
   * start tags outside `jabber:x:data` are search fields with a null value;
   * start tags in `jabber:x:data` are extensions; the `query` end tag
   * finishes.
   */
  function SearchScan(events: seq<Event>, pos: nat, iq: UserSearchIq): (r: Result<UserSearchIq, Exception>)
    ensures r.Failure? ==> r.error == ParserError
    decreases |events| - pos
  {
    match Next(events, pos)
    case Failure(err) => Failure(err)
    case Success(p) =>
      var e := events[p];
      if e.StartTag? && e.name == ItemElement then
        match ParseItems(events, p)
        case Success(d) => Success(iq.(data := Some(d)))
        case Failure(_) => Success(iq)
      else if e.StartTag? && e.name == InstructionsElement then SearchScan(events, p, iq)
      else if e.StartTag? && e.namespace != DataFormsNamespace then
        SearchScan(events, p, iq.(fields := iq.fields + [Field(e.name, None)]))
      else if e.StartTag? then
        match SkipElement(events, p, 1)
        case Failure(err) => Failure(err)
        case Success(q) => SearchScan(events, q, iq.(extensions := iq.extensions + [Extension(e.name, e.namespace)]))
      else if e.EndTag? && e.name == QueryElement then Success(iq)
      else SearchScan(events, p, iq)
  }

  /** `parse` at the query start tag: a new IQ with no fields, no extensions and no data. */
  function Parse(events: seq<Event>, pos: nat): Result<UserSearchIq, Exception>
  {
    SearchScan(events, pos, UserSearchIq([], [], None))
  }

  /** The loop of `parse` stops at an `item` start tag or at the `query` end tag. */
  predicate StopsSearch(e: Event)
  {
    (e.StartTag? && e.name == ItemElement) || (e.EndTag? && e.name == QueryElement)
  }

  /** A start tag that becomes a search field with a null value. */
  predicate IsFieldStart(e: Event)
  {
    e.StartTag? && e.name != ItemElement && e.name != InstructionsElement && e.namespace != DataFormsNamespace
  }

  /** A start tag that becomes a data-form extension, skipped as a whole. */
  predicate IsExtensionStart(e: Event)
  {
    e.StartTag? && e.name != ItemElement && e.name != InstructionsElement && e.namespace == DataFormsNamespace
  }

  /**
   * The positions the loop of `parse` reads from `pos` on, in order: every
   * event up to the first `item` start tag or `query` end tag, except those
   * inside a data-form extension, which is skipped as a whole.
   */
  ghost function SearchWalk(events: seq<Event>, pos: nat): (r: Result<seq<nat>, Exception>)
    decreases |events| - pos
  {
    match Next(events, pos)
    case Failure(err) => Failure(err)
    case Success(p) =>
      var e := events[p];
      if StopsSearch(e) then Success([p])
      else
        var from := if IsExtensionStart(e) then SkipElement(events, p, 1) else Success(p);
        match from
        case Failure(err) => Failure(err)
        case Success(q) =>
          match SearchWalk(events, q)
          case Failure(err) => Failure(err)
          case Success(w) => Success([p] + w)
  }

  /**
   * The walk starts right after `pos`, reads each event once in document
   * order, jumps only over a data-form extension, and stops at the FIRST
   * `item` start tag or `query` end tag it reads.
   */
  lemma {:induction false} SearchWalkShape(events: seq<Event>, pos: nat)
    requires SearchWalk(events, pos).Success?
    ensures var w := SearchWalk(events, pos).value;
      && |w| >= 1 && w[0] == pos + 1
      && (forall k :: 0 <= k < |w| ==> w[k] < |events|)
      && StopsSearch(events[w[|w| - 1]])
      && (forall k :: 0 <= k < |w| - 1 ==> !StopsSearch(events[w[k]]))
      && (forall k :: 0 <= k < |w| - 1 ==> SearchStep(events, w[k], w[k + 1]))
    decreases |events| - pos
  {
    var p := pos + 1;
    var e := events[p];
    if !StopsSearch(e) {
      var q := if IsExtensionStart(e) then SkipElement(events, p, 1).value else p;
      SearchWalkShape(events, q);
      var w' := SearchWalk(events, q).value;
      var w := [p] + w';
      assert SearchStep(events, p, q + 1);
      assert forall k :: 1 <= k < |w| ==> w[k] == w'[k - 1];
    }
  }

  /**
   * From a read event at `a` the loop reads `b` next: the event after the
   * end of a data-form extension starting at `a`, else the event after `a`.
   */
  predicate SearchStep(events: seq<Event>, a: nat, b: nat)
    requires a < |events|
  {
    if IsExtensionStart(events[a])
    then SkipElement(events, a, 1).Success? && SkipElement(events, a, 1).value + 1 == b
    else b == a + 1
  }

  /** The search field a read event adds: one, with a null value, for a field start tag. */
  function FieldOf(e: Event): seq<Field>
  {
    if IsFieldStart(e) then [Field(e.name, None)] else []
  }

  /** The extension a read event adds: one for a data-form start tag. */
  function ExtensionOf(e: Event): seq<Extension>
  {
    if IsExtensionStart(e) then [Extension(e.name, e.namespace)] else []
  }

  /** The search fields added along the positions `w`, in order. */
  function FieldsAlong(events: seq<Event>, w: seq<nat>): seq<Field>
  {
    if w == [] then []
    else (if w[0] < |events| then FieldOf(events[w[0]]) else []) + FieldsAlong(events, w[1..])
  }

  /** The extensions added along the positions `w`, in order. */
  function ExtensionsAlong(events: seq<Event>, w: seq<nat>): seq<Extension>
  {
    if w == [] then []
    else (if w[0] < |events| then ExtensionOf(events[w[0]]) else []) + ExtensionsAlong(events, w[1..])
  }

  /** The data after stopping at `last`: `parseItems`' result at an `item` start tag, unless it threw. */
  function DataAt(events: seq<Event>, last: nat, data: Option<ReportedData>): Option<ReportedData>
  {
    if last < |events| && events[last].StartTag? && events[last].name == ItemElement then
      match ParseItems(events, last)
      case Success(d) => Some(d)
      case Failure(_) => data
    else data
  }

  /**
   * The loop of `parse` succeeds exactly when its walk does; it then adds
   * one null-valued field per field start tag and one extension per
   * data-form start tag read, in document order, and sets the data to what
   * `parseItems` returns at the `item` start tag it stopped at, keeping the
   * earlier data when `parseItems` threw or it stopped at the `query` end.
   */
  lemma {:induction false} SearchScanFollowsWalk(events: seq<Event>, pos: nat, iq: UserSearchIq)
    ensures SearchScan(events, pos, iq).Success? <==> SearchWalk(events, pos).Success?
    ensures SearchWalk(events, pos).Success? ==>
      var w := SearchWalk(events, pos).value;
      var r := SearchScan(events, pos, iq).value;
      && r.fields == iq.fields + FieldsAlong(events, w)
      && r.extensions == iq.extensions + ExtensionsAlong(events, w)
      && r.data == DataAt(events, w[|w| - 1], iq.data)
    decreases |events| - pos
  {
    if pos + 1 < |events| {
      var p := pos + 1;
      var e := events[p];
      if StopsSearch(e) {
        SearchStopStep(events, pos, iq);
      } else {
        var from := if IsExtensionStart(e) then SkipElement(events, p, 1) else Success(p);
        if from.Success? {
          var iq' := iq.(fields := iq.fields + FieldOf(e), extensions := iq.extensions + ExtensionOf(e));
          SearchScanFollowsWalk(events, from.value, iq');
        }
        FollowsWalkStep(events, pos, iq);
      }
    }
  }

  /** What `SearchScanFollowsWalk` states, from `pos` with `iq`. */
  ghost predicate FollowsWalk(events: seq<Event>, pos: nat, iq: UserSearchIq)
  {
    && (SearchScan(events, pos, iq).Success? <==> SearchWalk(events, pos).Success?)
    && (SearchWalk(events, pos).Success? ==>
          var w := SearchWalk(events, pos).value;
          var r := SearchScan(events, pos, iq).value;
          && r.fields == iq.fields + FieldsAlong(events, w)
          && r.extensions == iq.extensions + ExtensionsAlong(events, w)
          && r.data == DataAt(events, w[|w| - 1], iq.data))
  }

  /** The inductive step: from where the next read event leaves the loop, back to `pos`. */
  lemma FollowsWalkStep(events: seq<Event>, pos: nat, iq: UserSearchIq)
    requires pos + 1 < |events| && !StopsSearch(events[pos + 1])
    requires var e := events[pos + 1];
             var from := if IsExtensionStart(e) then SkipElement(events, pos + 1, 1) else Success(pos + 1);
             from.Success? ==>
               FollowsWalk(events, from.value, iq.(fields := iq.fields + FieldOf(e), extensions := iq.extensions + ExtensionOf(e)))
    ensures FollowsWalk(events, pos, iq)
  {
    var p := pos + 1;
    var e := events[p];
    var from := if IsExtensionStart(e) then SkipElement(events, p, 1) else Success(p);
    SearchScanStep(events, pos, iq);
    SearchWalkStep(events, pos);
    if from.Success? {
      FollowsWalkFrom(events, pos, iq, from.value);
    }
  }

  /** The inductive step when the loop carries on from `q`. */
  lemma FollowsWalkFrom(events: seq<Event>, pos: nat, iq: UserSearchIq, q: nat)
    requires pos + 1 < |events|
    requires var e := events[pos + 1];
             var iq' := iq.(fields := iq.fields + FieldOf(e), extensions := iq.extensions + ExtensionOf(e));
             && SearchScan(events, pos, iq) == SearchScan(events, q, iq')
             && (SearchWalk(events, pos).Success? <==> SearchWalk(events, q).Success?)
             && (SearchWalk(events, pos).Success? ==> SearchWalk(events, pos).value == [pos + 1] + SearchWalk(events, q).value)
             && FollowsWalk(events, q, iq')
    ensures FollowsWalk(events, pos, iq)
  {
    var p := pos + 1;
    var e := events[p];
    var iq' := iq.(fields := iq.fields + FieldOf(e), extensions := iq.extensions + ExtensionOf(e));
    if SearchWalk(events, q).Success? {
      var w' := SearchWalk(events, q).value;
      var r := SearchScan(events, q, iq').value;
      FieldsAlongCons(events, p, w', iq.fields);
      ExtensionsAlongCons(events, p, w', iq.extensions);
      assert ([p] + w')[|[p] + w'| - 1] == w'[|w'| - 1];
    }
  }

  /** One step of `parse`'s loop at an event that does not stop it. */
  lemma SearchScanStep(events: seq<Event>, pos: nat, iq: UserSearchIq)
    requires pos + 1 < |events| && !StopsSearch(events[pos + 1])
    ensures var e := events[pos + 1];
            var from := if IsExtensionStart(e) then SkipElement(events, pos + 1, 1) else Success(pos + 1);
            var iq' := iq.(fields := iq.fields + FieldOf(e), extensions := iq.extensions + ExtensionOf(e));
            SearchScan(events, pos, iq) == if from.Failure? then Failure(from.error) else SearchScan(events, from.value, iq')
  {
    var e := events[pos + 1];
    assert iq.fields + [] == iq.fields && iq.extensions + [] == iq.extensions;
  }

  /** `parse`'s loop at an event that stops it, and its walk. */
  lemma SearchStopStep(events: seq<Event>, pos: nat, iq: UserSearchIq)
    requires pos + 1 < |events| && StopsSearch(events[pos + 1])
    ensures SearchWalk(events, pos) == Success([pos + 1])
    ensures SearchScan(events, pos, iq).Success?
    ensures var r := SearchScan(events, pos, iq).value;
            && r.fields == iq.fields + FieldsAlong(events, [pos + 1])
            && r.extensions == iq.extensions + ExtensionsAlong(events, [pos + 1])
            && r.data == DataAt(events, pos + 1, iq.data)
  {
    assert FieldsAlong(events, [pos + 1]) == [] && ExtensionsAlong(events, [pos + 1]) == [];
    assert iq.fields + [] == iq.fields && iq.extensions + [] == iq.extensions;
  }

  /** One step of the walk at an event that does not stop it. */
  lemma SearchWalkStep(events: seq<Event>, pos: nat)
    requires pos + 1 < |events| && !StopsSearch(events[pos + 1])
    ensures var e := events[pos + 1];
            var from := if IsExtensionStart(e) then SkipElement(events, pos + 1, 1) else Success(pos + 1);
            && (SearchWalk(events, pos).Success? <==> from.Success? && SearchWalk(events, from.value).Success?)
            && (SearchWalk(events, pos).Success? ==>
                  SearchWalk(events, pos).value == [pos + 1] + SearchWalk(events, from.value).value)
  {
  }

  /** The fields along a walk that starts with `p`: those of `p`, then the rest. */
  lemma FieldsAlongCons(events: seq<Event>, p: nat, w: seq<nat>, before: seq<Field>)
    requires p < |events|
    ensures (before + FieldOf(events[p])) + FieldsAlong(events, w) == before + FieldsAlong(events, [p] + w)
  {
    assert ([p] + w)[0] == p && ([p] + w)[1..] == w;
  }

  /** The extensions along a walk that starts with `p`: those of `p`, then the rest. */
  lemma ExtensionsAlongCons(events: seq<Event>, p: nat, w: seq<nat>, before: seq<Extension>)
    requires p < |events|
    ensures (before + ExtensionOf(events[p])) + ExtensionsAlong(events, w) == before + ExtensionsAlong(events, [p] + w)
  {
    assert ([p] + w)[0] == p && ([p] + w)[1..] == w;
  }

  /** `parse`'s `while (!done)` loop over the events. */
  method ParseEvents(events: seq<Event>, pos: nat) returns (r: Result<UserSearchIq, Exception>)
    ensures r == Parse(events, pos)
  {
    var search := UserSearchIq([], [], None);
    var done := false;
    var p := pos;
    while !done
      invariant !done ==> SearchScan(events, p, search) == Parse(events, pos)
      invariant done ==> Success(search) == Parse(events, pos)
      decreases |events| - p, if done then 0 else 1
    {
      if p + 1 >= |events| {
        return Failure(ParserError);
      }
      p := p + 1;
      var e := events[p];
      if e.StartTag? && e.name == ItemElement {
        var items := ParseItemsEvents(events, p);
        if items.Success? {
          search := search.(data := Some(items.value));
        }
        return Success(search);
      } else if e.StartTag? && e.name == InstructionsElement {
        continue;
      } else if e.StartTag? && e.namespace != DataFormsNamespace {
        search := search.(fields := search.fields + [Field(e.name, None)]);
      } else if e.StartTag? && e.namespace == DataFormsNamespace {
        var skipped := SkipElement(events, p, 1);
        if skipped.Failure? {
          return Failure(skipped.error);
        }
        p := skipped.value;
        search := search.(extensions := search.extensions + [Extension(e.name, e.namespace)]);
      } else if e.EndTag? {
        if e.name == QueryElement {
          done := true;
        }
      }
    }
    r := Success(search);
  }
}
