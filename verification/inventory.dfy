/**
 The inventory aggregate: addressing a row by event id, section name and row
 name (first match at each level, as `Array.prototype.find` does), writing a
 row back into the store, and creating an event.
 */
module Inventory {
  import opened Wrappers
  import opened EventModel

  /** The index of the first element of `xs` satisfying `p`, if any. */
  function FirstMatch<T>(xs: seq<T>, p: T -> bool): (r: Option<nat>)
    ensures r.Some? ==> r.value < |xs| && p(xs[r.value]) && forall j :: 0 <= j < r.value ==> !p(xs[j])
    ensures r.None? <==> forall j :: 0 <= j < |xs| ==> !p(xs[j])
  {
    if xs == [] then None
    else if p(xs[0]) then Some(0)
    else match FirstMatch(xs[1..], p)
      case None => None
      case Some(i) => Some(i + 1)
  }

  /** The first event whose id is `id`. */
  function FindEvent(store: seq<Event>, id: string): (r: Option<nat>)
    ensures r.Some? ==>
      && r.value < |store| && store[r.value].id == id
      && forall j :: 0 <= j < r.value ==> store[j].id != id
    ensures r.None? <==> forall j :: 0 <= j < |store| ==> store[j].id != id
  {
    FirstMatch(store, (e: Event) => e.id == id)
  }

  /** The first section of `event` named `name`. */
  function FindSection(event: Event, name: string): (r: Option<nat>)
    ensures r.Some? ==>
      && r.value < |event.sections| && event.sections[r.value].name == name
      && forall j :: 0 <= j < r.value ==> event.sections[j].name != name
    ensures r.None? <==> forall j :: 0 <= j < |event.sections| ==> event.sections[j].name != name
  {
    FirstMatch(event.sections, (s: Section) => s.name == name)
  }

  /** The first row of `section` named `name`. */
  function FindRow(section: Section, name: string): (r: Option<nat>)
    ensures r.Some? ==>
      && r.value < |section.rows| && section.rows[r.value].name == name
      && forall j :: 0 <= j < r.value ==> section.rows[j].name != name
    ensures r.None? <==> forall j :: 0 <= j < |section.rows| ==> section.rows[j].name != name
  {
    FirstMatch(section.rows, (w: Row) => w.name == name)
  }

  /** The position of one row in the store: event index, section index, row index. */
  datatype RowAddress = RowAddress(event: nat, section: nat, row: nat)

  ghost predicate ValidAddress(store: seq<Event>, a: RowAddress) {
    && a.event < |store|
    && a.section < |store[a.event].sections|
    && a.row < |store[a.event].sections[a.section].rows|
  }

  function RowAt(store: seq<Event>, a: RowAddress): Row
    requires ValidAddress(store, a)
  {
    store[a.event].sections[a.section].rows[a.row]
  }

  /** `a` is where the lookup by `eventId`, `sectionName`, `rowName` lands: the first match at each level. */
  ghost predicate Addresses(store: seq<Event>, a: RowAddress, eventId: string, sectionName: string, rowName: string) {
    && ValidAddress(store, a)
    && FindEvent(store, eventId) == Some(a.event)
    && FindSection(store[a.event], sectionName) == Some(a.section)
    && FindRow(store[a.event].sections[a.section], rowName) == Some(a.row)
  }

  /**
   Resolve event, then section, then row; the first segment that does not
   resolve is reported as NotFound.
   */
  function Resolve(store: seq<Event>, eventId: string, sectionName: string, rowName: string): (r: Result<RowAddress, Error>)
    ensures r.Ok? ==> Addresses(store, r.value, eventId, sectionName, rowName)
    ensures r == Err(NotFound(EventEntity)) <==> forall i :: 0 <= i < |store| ==> store[i].id != eventId
    ensures r == Err(NotFound(SectionEntity)) <==>
      exists i :: FindEvent(store, eventId) == Some(i)
        && forall j :: 0 <= j < |store[i].sections| ==> store[i].sections[j].name != sectionName
    ensures r == Err(NotFound(RowEntity)) <==>
      exists i, k :: FindEvent(store, eventId) == Some(i) && FindSection(store[i], sectionName) == Some(k)
        && forall j :: 0 <= j < |store[i].sections[k].rows| ==> store[i].sections[k].rows[j].name != rowName
    ensures r.Err? ==> r.error.NotFound?
  {
    match FindEvent(store, eventId)
    case None => Err(NotFound(EventEntity))
    case Some(i) =>
      match FindSection(store[i], sectionName)
      case None => Err(NotFound(SectionEntity))
      case Some(k) =>
        match FindRow(store[i].sections[k], rowName)
        case None => Err(NotFound(RowEntity))
        case Some(j) => Ok(RowAddress(i, k, j))
  }

  /**
   The store with the row at `a` replaced by `row`: the document save after an
   in-place edit of one row. Nothing else changes.
   */
  function WithRow(store: seq<Event>, a: RowAddress, row: Row): (r: seq<Event>)
    requires ValidAddress(store, a)
    ensures |r| == |store|
    ensures forall b :: ValidAddress(store, b) <==> ValidAddress(r, b)
    ensures ValidAddress(r, a) && RowAt(r, a) == row
    ensures forall b :: ValidAddress(store, b) && b != a ==> RowAt(r, b) == RowAt(store, b)
    ensures forall i :: 0 <= i < |r| ==>
      && r[i].id == store[i].id && r[i].name == store[i].name && r[i].date == store[i].date
      && |r[i].sections| == |store[i].sections|
      && forall k :: 0 <= k < |r[i].sections| ==> r[i].sections[k].name == store[i].sections[k].name
    ensures forall i :: 0 <= i < |r| && i != a.event ==> r[i] == store[i]
  {
    var event := store[a.event];
    var section := event.sections[a.section];
    var section' := section.(rows := section.rows[a.row := row]);
    var event' := event.(sections := event.sections[a.section := section']);
    store[a.event := event']
  }

  /** Rows and sections keep their names under WithRow, so the lookup still lands on the same row. */
  lemma WithRowKeepsAddress(store: seq<Event>, a: RowAddress, row: Row, eventId: string, sectionName: string, rowName: string)
    requires Addresses(store, a, eventId, sectionName, rowName) && row.name == RowAt(store, a).name
    ensures Addresses(WithRow(store, a, row), a, eventId, sectionName, rowName)
  {
  }

  /** A submitted row as the store keeps it: omitted holds default to none. */
  function MaterializeRow(input: RowInput): (r: Row)
    ensures r.name == input.name && r.totalSeats == input.totalSeats
    ensures input.lockedSeats.None? ==> r.lockedSeats == []
    ensures input.lockedSeats.Some? ==> r.lockedSeats == input.lockedSeats.value
  {
    Row(input.name, input.totalSeats, match input.lockedSeats case None => [] case Some(ls) => ls)
  }

  function MaterializeSection(input: SectionInput): (r: Section)
    ensures r.name == input.name && |r.rows| == |input.rows|
    ensures forall j :: 0 <= j < |r.rows| ==> r.rows[j] == MaterializeRow(input.rows[j])
  {
    Section(input.name, seq(|input.rows|, j requires 0 <= j < |input.rows| => MaterializeRow(input.rows[j])))
  }

  /**
   createEvent: a missing `name` or `sections` is a validation error and
   nothing is stored; otherwise the event is appended. An empty list of
   sections is present, so it is accepted. The event date and identifier are
   parameters: the store and the caller choose them.
   */
  function CreateEvent(store: seq<Event>, id: string, name: string, date: int, sections: Option<seq<SectionInput>>): (r: Step<Event>)
    ensures r.reply == Err(Validation) <==> name == "" || sections.None?
    ensures r.reply.Ok? <==> name != "" && sections.Some?
    ensures r.reply.Err? ==> r.store == store
    ensures r.reply.Ok? ==>
      && r.store == store + [r.reply.value]
      && r.reply.value.id == id && r.reply.value.name == name && r.reply.value.date == date
      && |r.reply.value.sections| == |sections.value|
      && (forall k :: 0 <= k < |sections.value| ==>
            r.reply.value.sections[k] == MaterializeSection(sections.value[k]))
  {
    if name == "" || sections.None? then Step(store, Err(Validation))
    else
      var ss := sections.value;
      var event := Event(id, name, date, seq(|ss|, k requires 0 <= k < |ss| => MaterializeSection(ss[k])));
      Step(store + [event], Ok(event))
  }

  /**
   An event created under an id no stored event has is what a later lookup
   by that id finds.
   */
  lemma CreateThenFind(store: seq<Event>, id: string, name: string, date: int, sections: Option<seq<SectionInput>>)
    requires forall i :: 0 <= i < |store| ==> store[i].id != id
    requires CreateEvent(store, id, name, date, sections).reply.Ok?
    ensures var r := CreateEvent(store, id, name, date, sections);
      FindEvent(r.store, id) == Some(|store|) && r.store[|store|] == r.reply.value
  {
  }
}
