/**
 * Image-list navigation with the arrow keys: the index of the selected entry
 * among `count` entries after an ArrowUp or ArrowDown release.
 */
module Navigation {

  /**
   * The index after an ArrowUp release among `count` entries: it moves to the
   * previous entry only when there is one at `idx - 1`.
   */
  function ArrowUp(idx: nat, count: nat): (r: nat)
    ensures r == idx || (r == idx - 1 && r < count)
    ensures r != idx <==> 0 < idx <= count
  {
    if idx > 0 && idx - 1 < count then idx - 1 else idx
  }

  /**
   * The index after an ArrowDown release among `count` entries: it moves to the
   * next entry only when there is one at `idx + 1`.
   */
  function ArrowDown(idx: nat, count: nat): (r: nat)
    ensures r == idx || (r == idx + 1 && r < count)
    ensures r != idx <==> idx + 1 < count
  {
    if idx + 1 < count then idx + 1 else idx
  }

  /** From a selected entry, ArrowUp and ArrowDown undo each other when they move. */
  lemma ArrowKeysUndoEachOther(idx: nat, count: nat)
    requires idx < count
    ensures ArrowUp(idx, count) != idx ==> ArrowDown(ArrowUp(idx, count), count) == idx
    ensures ArrowDown(idx, count) != idx ==> ArrowUp(ArrowDown(idx, count), count) == idx
  {
  }
}
