/** The microblog component: its state, the storage slot it persists the
    entries to, initialisation from that slot, and the event dispatcher. */
module App {
  import opened Entries

  /** The page size every blog starts with. */
  const PageSize: nat := 10

  /** The events the user interface sends to the component. */
  datatype BlogMsg =
    | Add
    | ShowAdd
    | HideAdd
    | UpdateTitle(title: string)
    | UpdateBody(body: string)

  /** What restoring the blog's storage key yields: a list of entries, or a
      failure (the key is absent or its value does not parse). */
  datatype Slot = Unreadable | Holds(entries: seq<Entry>)

  /** The component: the blog state (draft, entries, compose flag, page size)
      together with the storage slot it writes after every event. */
  class Blog {
    var inflight: Entry
    var entries: seq<Entry>
    var adding: bool
    var pageSize: nat
    var stored: Slot

    /** The page size never departs from its initial value, and the draft
        never carries an id. */
    ghost predicate Valid()
      reads this
    {
      pageSize == PageSize && inflight.id == 0
    }

    /** Starts from whatever the slot restores (the empty list when restoring
        fails), with a fresh draft, the compose panel closed and the default
        page size; storage is read, not written. */
    constructor (slot: Slot, now: Timestamp)
      ensures Valid()
      ensures inflight == NewEntry(now)
      ensures slot.Holds? ==> entries == slot.entries
      ensures slot.Unreadable? ==> entries == []
      ensures !adding && pageSize == PageSize
      ensures stored == slot
    {
      inflight := NewEntry(now);
      entries := if slot.Holds? then slot.entries else [];
      adding := false;
      pageSize := PageSize;
      stored := slot;
    }

    /** Applies one event, then writes the entries to storage; always asks
        for a re-render. `now` stamps the new draft that Add and HideAdd
        create. */
    method Update(msg: BlogMsg, now: Timestamp) returns (render: bool)
      requires Valid()
      modifies this
      ensures Valid()
      ensures render
      ensures stored == Holds(entries)
      ensures pageSize == old(pageSize)
      ensures match msg
        case Add =>
          && entries == old(entries) + [old(inflight).(id := NextId(old(entries)))]
          && inflight == NewEntry(now)
          && adding == old(adding)
        case ShowAdd =>
          adding && entries == old(entries) && inflight == old(inflight)
        case HideAdd =>
          !adding && entries == old(entries) && inflight == NewEntry(now)
        case UpdateTitle(title) =>
          && inflight == old(inflight).(title := title)
          && entries == old(entries) && adding == old(adding)
        case UpdateBody(body) =>
          && inflight == old(inflight).(body := body)
          && entries == old(entries) && adding == old(adding)
      ensures msg.Add? ==>
        && |entries| == |old(entries)| + 1
        && forall i :: 0 <= i < |old(entries)| ==> old(entries)[i].id < entries[|entries| - 1].id
      ensures old(DistinctIds(entries)) ==> DistinctIds(entries)
      ensures old(SequentialIds(entries)) ==> SequentialIds(entries)
    {
      match msg {
        case Add =>
          if DistinctIds(entries) {
            AppendNextIdKeepsDistinct(entries, inflight);
          }
          if SequentialIds(entries) {
            SequentialNextId(entries, inflight);
          }
          var entry := inflight.(id := NextId(entries));
          inflight := NewEntry(now);
          entries := entries + [entry];
        case ShowAdd =>
          adding := true;
        case HideAdd =>
          adding := false;
          inflight := NewEntry(now);
        case UpdateTitle(title) =>
          inflight := inflight.(title := title);
        case UpdateBody(body) =>
          inflight := inflight.(body := body);
      }
      stored := Holds(entries);
      render := true;
    }
  }

  /** The session from empty storage: open the compose panel, type a title
      and a body, save. One entry with id 1 and the first draft's time stamp
      results, the draft is empty again, storage holds that single entry, and
      a blog started afresh from storage sees the same entries. */
  method EndToEnd(t0: Timestamp, t1: Timestamp, t2: Timestamp)
    returns (entries: seq<Entry>, draft: Entry, stored: Slot, reloaded: seq<Entry>)
    ensures entries == [Entry("Hello", "World", t0, 1)]
    ensures draft == Entry("", "", t1, 0)
    ensures stored == Holds(entries)
    ensures reloaded == entries
  {
    var blog := new Blog(Unreadable, t0);
    var render := blog.Update(ShowAdd, t1);
    render := blog.Update(UpdateTitle("Hello"), t1);
    render := blog.Update(UpdateBody("World"), t1);
    render := blog.Update(Add, t1);
    entries, draft, stored := blog.entries, blog.inflight, blog.stored;
    var again := new Blog(blog.stored, t2);
    reloaded := again.entries;
  }
}
