/** The iterator interface: a cursor over entries in internal-key order. */
module Cursors {
  import opened InternalKeys

  class Cursor {
    const entries: seq<Entry>
    /** The current entry; the length of the list when there is none. */
    var pos: nat

    ghost predicate Ok()
      reads this
    {
      SortedEntries(entries) && pos <= |entries|
    }

    predicate Valid()
      reads this
    {
      pos < |entries|
    }

    constructor (entries: seq<Entry>)
      requires SortedEntries(entries)
      ensures Ok() && !Valid() && this.entries == entries
    {
      this.entries := entries;
      pos := |entries|;
    }

    function Current(): Entry
      requires Valid()
      reads this
    {
      entries[pos]
    }

    method SeekToFirst()
      modifies this
      ensures pos == 0
    {
      pos := 0;
    }

    method SeekToLast()
      modifies this
      ensures pos == if entries == [] then 0 else |entries| - 1
    {
      pos := if entries == [] then 0 else |entries| - 1;
    }

    /** Moves to the first entry at or after the target. */
    method Seek(target: InternalKey)
      modifies this
      ensures pos <= |entries|
      ensures forall j :: 0 <= j < pos ==> Less(entries[j].key, target)
      ensures pos < |entries| ==> !Less(entries[pos].key, target)
    {
      pos := 0;
      while pos < |entries| && Less(entries[pos].key, target)
        invariant pos <= |entries| && forall j :: 0 <= j < pos ==> Less(entries[j].key, target)
      {
        pos := pos + 1;
      }
    }

    method Next()
      requires Valid()
      modifies this
      ensures pos == old(pos) + 1
    {
      pos := pos + 1;
    }

    /** Stepping back from the first entry leaves no current entry. */
    method Prev()
      requires Valid()
      modifies this
      ensures pos == if old(pos) == 0 then |entries| else old(pos) - 1
    {
      pos := if pos == 0 then |entries| else pos - 1;
    }
  }
}
