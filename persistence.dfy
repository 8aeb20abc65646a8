/**
  The records the importer reads and writes, and the store that holds them.
  An event's or a tag's id is its position in the store.
*/
module Persistence {
  import opened Wrappers
  import opened Php
  import opened Dates

  /** An event: its name, optional description, calendar day and the ids of its tags. */
  datatype Event = Event(name: string, description: Option<string>, date: Date, tagIds: set<nat>)

  /** A tag: its name in the import locale and its colour. */
  datatype Tag = Tag(name: string, color: string)

  /** The contents of the store at one moment. */
  datatype Db = Db(events: seq<Event>, tags: seq<Tag>)

  /** The store the importer writes to in place. */
  class Database {
    var events: seq<Event>
    var tags: seq<Tag>

    constructor (initial: Db)
      ensures Snapshot() == initial
    {
      events := initial.events;
      tags := initial.tags;
    }

    function Snapshot(): Db
      reads this
    {
      Db(events, tags)
    }
  }

  /** Whether an event with this name on this calendar day exists: the duplicate query on (name, DATE(date)). */
  predicate HasEvent(events: seq<Event>, name: string, date: Date) {
    exists i :: 0 <= i < |events| && events[i].name == name && events[i].date == date
  }

  /** The first tag whose name equals `name` ignoring case, as the lookup query returns it. */
  function FindTag(tags: seq<Tag>, name: string): (r: Option<nat>)
    ensures r.Some? ==> r.value < |tags|
  {
    if tags == [] then None
    else
      var n := |tags| - 1;
      var earlier := FindTag(tags[..n], name);
      if earlier.Some? then earlier
      else if SameIgnoringCase(tags[n].name, name) then Some(n)
      else None
  }

  /** The lookup finds the first tag whose name matches, and finds nothing only when no tag matches. */
  lemma {:induction false} FindTagFirstMatch(tags: seq<Tag>, name: string)
    ensures var r := FindTag(tags, name);
      (r.Some? ==> SameIgnoringCase(tags[r.value].name, name)
                   && forall j :: 0 <= j < r.value ==> !SameIgnoringCase(tags[j].name, name))
      && (r.None? ==> forall j :: 0 <= j < |tags| ==> !SameIgnoringCase(tags[j].name, name))
  {
    if tags != [] {
      var n := |tags| - 1;
      FindTagFirstMatch(tags[..n], name);
      assert forall j :: 0 <= j < n ==> tags[j] == tags[..n][j];
    }
  }

  /** No two events share a name and a calendar day. */
  predicate UniqueEventKeys(events: seq<Event>) {
    forall i, j :: 0 <= i < j < |events| ==>
      !(events[i].name == events[j].name && events[i].date == events[j].date)
  }

  /** No two tags have the same name ignoring case. */
  predicate DistinctTagNames(tags: seq<Tag>) {
    forall i, j :: 0 <= i < j < |tags| ==> !SameIgnoringCase(tags[i].name, tags[j].name)
  }
}
