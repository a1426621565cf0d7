/**
 * The bounded history of generations: a stack of live-cell snapshots,
 * newest last, that evicts its oldest entry when it grows past its bound.
 * A bound of -1 disables eviction.
 */
module History {
  import opened Cells

  /** Whether pushing onto a stack of this length pushes it past the bound. */
  predicate Evicts(bound: int, length: int)
  {
    bound != -1 && length + 1 > bound
  }

  /**
   * The stack after appending a snapshot and, when the bound is exceeded,
   * dropping the entry at index 0: it keeps the newest entries of the old
   * stack followed by the snapshot, and it never outgrows a bound it respected.
   */
  function Stored(stack: seq<set<Cell>>, snapshot: set<Cell>, bound: int): (r: seq<set<Cell>>)
    ensures |r| == if Evicts(bound, |stack|) then |stack| else |stack| + 1
    ensures r == (stack + [snapshot])[|stack| + 1 - |r|..]
    ensures |r| > 0 ==> r[|r| - 1] == snapshot
    ensures bound >= 0 && |stack| <= bound ==> |r| <= bound
  {
    var pushed := stack + [snapshot];
    assert pushed[|pushed| - 1] == snapshot;
    if bound != -1 && |pushed| > bound then pushed[1..] else assert pushed[0..] == pushed; pushed
  }

  /** With eviction, exactly the oldest entry goes: the rest of the old stack is kept in order. */
  lemma StoredEvictsOldest(stack: seq<set<Cell>>, snapshot: set<Cell>, bound: int)
    requires Evicts(bound, |stack|) && |stack| > 0
    ensures Stored(stack, snapshot, bound) == stack[1..] + [snapshot]
  {
  }

  /** Without the bound, storing only appends. */
  lemma StoredUnbounded(stack: seq<set<Cell>>, snapshot: set<Cell>)
    ensures Stored(stack, snapshot, -1) == stack + [snapshot]
  {
  }
}
