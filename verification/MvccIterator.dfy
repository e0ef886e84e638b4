/** The forward iterator over versioned entries, with its look-ahead of one entry. */
module MvccIterators {
  import opened Keys
  import opened MvccKeys
  import opened Storages

  /** The key is that of the seek, and it is not newer. */
  predicate Answers(key: MVCCKey, sought: MVCCKey) {
    key.key == sought.key && key.timestamp.Le(sought.timestamp)
  }

  /** The first answer from `from` on, or the end. */
  function FirstAnswer(entries: seq<Entry>, from: nat, sought: MVCCKey): (at: nat)
    requires from <= |entries|
    ensures from <= at <= |entries|
    ensures at < |entries| ==> Answers(entries[at].key, sought)
    ensures forall i :: from <= i < at ==> !Answers(entries[i].key, sought)
    decreases |entries| - from
  {
    if from == |entries| || Answers(entries[from].key, sought) then from
    else FirstAnswer(entries, from + 1, sought)
  }

  /** Where a seek leaves the iterator. A seek without an answer runs on to the last entry, which
      is then current as if it had been found. */
  function SeekFrom(entries: seq<Entry>, from: nat, sought: MVCCKey): (at: nat)
    requires from <= |entries|
    ensures at <= |entries|
  {
    if from == |entries| then from
    else if FirstAnswer(entries, from, sought) < |entries| then FirstAnswer(entries, from, sought)
    else |entries| - 1
  }

  class MVCCIterator {
    const entries: seq<Entry>
    var consumed: nat  // how many entries the underlying iterator has given out
    var currKv: Option<Entry>
    var isDone: bool

    predicate Valid()
      reads this
    {
      consumed <= |entries| &&
      if isDone then currKv.None? && consumed == |entries|
      else consumed > 0 && currKv == Some(entries[consumed - 1])
    }

    /** The position of the current entry; the number of entries when there is none. */
    function At(): (at: nat)
      requires Valid()
      reads this
      ensures at <= |entries| && (isDone <==> at == |entries|)
    {
      if isDone then |entries| else consumed - 1
    }

    constructor (entries: seq<Entry>)
      ensures this.entries == entries && Valid() && At() == 0
    {
      this.entries, consumed, currKv, isDone := entries, 0, None, false;
      new;
      var _ := Next();
    }

    method Next() returns (isValid: bool)
      requires consumed <= |entries| && (isDone ==> consumed == |entries|)
      modifies this
      ensures Valid() && At() == (if old(consumed) < |entries| then old(consumed) else |entries|)
      ensures isValid <==> !isDone
    {
      if consumed < |entries| {
        currKv := Some(entries[consumed]);
        consumed := consumed + 1;
        return true;
      }
      isDone, currKv := true, None;
      return false;
    }

    function CurrentKey(): (key: MVCCKey)
      requires Valid() && !isDone
      reads this
      ensures key == entries[At()].key
    {
      currKv.value.key
    }

    function CurrentValue(): (stored: Stored)
      requires Valid() && !isDone
      reads this
      ensures stored == entries[At()].stored
    {
      currKv.value.stored
    }

    /** Moves on to the first answer and tells whether there is one. */
    method SeekGe(key: MVCCKey) returns (found: bool)
      requires Valid()
      modifies this
      ensures Valid() && At() == SeekFrom(entries, old(At()), key)
      ensures found <==> FirstAnswer(entries, old(At()), key) < |entries|
    {
      if isDone {
        return false;
      }
      ghost var start := At();
      if Answers(CurrentKey(), key) {
        return true;
      }
      while consumed < |entries|
        invariant Valid() && !isDone && start <= At()
        invariant forall i :: start <= i <= At() ==> !Answers(entries[i].key, key)
        decreases |entries| - consumed
      {
        var peeked := entries[consumed].key;
        if Answers(peeked, key) {
          var _ := Next();
          return true;
        }
        var _ := Next();
      }
      return false;
    }
  }
}
