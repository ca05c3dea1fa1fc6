/**
 * The edits the node applier makes to a node's ordered child list:
 * `add(index, element)`, and the runtime's `remove(index, count)` and
 * `move(from, to, count)` helpers for mutable lists. Each edit is given with
 * the index, in the list before the edit, that every element of the list
 * after it comes from.
 */
module Lists {
  import opened Wrappers

  /** `s.add(index, x)`: `x` at `index`, the elements from `index` on one further right. */
  function Inserted<T>(s: seq<T>, index: int, x: T): (r: Result<seq<T>>)
    ensures r.Ok? <==> 0 <= index <= |s|
    ensures r.Err? ==> r.error == IndexOutOfBounds
    ensures r.Ok? ==> |r.value| == |s| + 1 && r.value[index] == x
    ensures r.Ok? ==> forall k :: 0 <= k < |r.value| && k != index ==> r.value[k] == s[InsertedSource(index, k)]
  {
    if 0 <= index <= |s| then Ok(s[..index] + [x] + s[index..]) else Err(IndexOutOfBounds)
  }

  /** Where the element at `k != index` of `s.add(index, x)` was in `s`. */
  function InsertedSource(index: int, k: int): int {
    if k < index then k else k - 1
  }

  /**
   * `s.remove(index, count)`: the `count` elements from `index` on taken out.
   * A range reaching outside the list is an `IndexOutOfBoundsException`,
   * checked first; a negative count is an `IllegalArgumentException`.
   */
  function Removed<T>(s: seq<T>, index: int, count: int): (r: Result<seq<T>>)
    ensures r.Ok? <==> 0 <= index && 0 <= count && index + count <= |s|
    ensures r.Err? ==> r.error == if index < 0 || index + count > |s| then IndexOutOfBounds else IllegalArgument
    ensures r.Ok? ==> |r.value| == |s| - count
    ensures r.Ok? ==> forall k :: 0 <= k < |r.value| ==> r.value[k] == s[RemovedSource(index, count, k)]
  {
    if index < 0 || index + count > |s| then Err(IndexOutOfBounds)
    else if count < 0 then Err(IllegalArgument)
    else Ok(s[..index] + s[index + count..])
  }

  /** Where the element at `k` of `s.remove(index, count)` was in `s`. */
  function RemovedSource(index: int, count: int, k: int): int {
    if k < index then k else k + count
  }

  /**
   * The index at which the general case of `move(from, to, count)` puts the
   * block back once it is taken out: `to` counts positions of the list
   * before the move.
   */
  function Destination(from: int, to: int, count: int): int {
    if from > to then to else to - count
  }

  /**
   * The special case of `move`: a single element next to `to`, which the
   * helper exchanges with the element at `to` instead of taking it out.
   */
  predicate Swaps(from: int, to: int, count: int) {
    count == 1 && (from == to + 1 || from == to - 1)
  }

  /**
   * The index at which the first moved element ends up. It is the
   * destination, except for a single element swapped with its right-hand
   * neighbour, which ends up at `to`.
   */
  function Landing(from: int, to: int, count: int): int {
    if count == 1 && from == to - 1 then to else Destination(from, to, count)
  }

  /** When `move(from, to, count)` on a list of `n` elements completes. */
  predicate MovePasses(n: int, from: int, to: int, count: int) {
    if Swaps(from, to, count) then 0 <= from < n && 0 <= to < n
    else 0 <= from && 0 <= count && from + count <= n && 0 <= Destination(from, to, count) <= n - count
  }

  /**
   * `s.move(from, to, count)`: the list afterwards, and how the call ends.
   * A swap reads `from` and writes `to` before it changes anything, so when
   * it fails the list is untouched. Otherwise the block is taken out as by
   * `remove` (which fails first, with the list untouched) and then put back
   * at `Destination(from, to, count)` of what is left; when that index is
   * out of range the block has already gone.
   */
  function Moved<T>(s: seq<T>, from: int, to: int, count: int): (r: (seq<T>, Outcome))
    ensures r.1.Pass? <==> MovePasses(|s|, from, to, count)
    ensures r.1.Fail? ==> r.1.error == if !Swaps(from, to, count) && 0 <= from && from + count <= |s| && count < 0 then IllegalArgument else IndexOutOfBounds
    ensures r.1.Fail? ==> r.0 == if !Swaps(from, to, count) && Removed(s, from, count).Ok? then Removed(s, from, count).value else s
    ensures r.1.Pass? ==> |r.0| == |s|
    ensures r.1.Pass? ==> forall k :: 0 <= k < |s| ==> 0 <= MovedSource(from, to, count, k) < |s| && r.0[k] == s[MovedSource(from, to, count, k)]
  {
    if Swaps(from, to, count) then
      if 0 <= from < |s| && 0 <= to < |s| then (s[from := s[to]][to := s[from]], Pass) else (s, Fail(IndexOutOfBounds))
    else
      match Removed(s, from, count)
      case Err(e) => (s, Fail(e))
      case Ok(rest) =>
        var dest := Destination(from, to, count);
        if dest < 0 || dest > |rest| then (rest, Fail(IndexOutOfBounds))
        else (rest[..dest] + s[from..from + count] + rest[dest..], Pass)
  }

  /** Where the element at `k` of `s.move(from, to, count)` was in `s`. */
  function MovedSource(from: int, to: int, count: int, k: int): int {
    if Swaps(from, to, count) then
      (if k == from then to else if k == to then from else k)
    else
      var dest := Destination(from, to, count);
      if k < dest then RemovedSource(from, count, k)
      else if k < dest + count then from + (k - dest)
      else RemovedSource(from, count, k - count)
  }

  /** Removing what was just inserted gives the list back. */
  lemma InsertThenRemove<T>(s: seq<T>, index: int, x: T)
    requires 0 <= index <= |s|
    ensures Removed(Inserted(s, index, x).value, index, 1) == Ok(s)
  {
    var t := Inserted(s, index, x).value;
    assert t[..index] + t[index + 1..] == s;
  }

  /** Inserting adds exactly one element to the multiset of elements. */
  lemma InsertAddsOne<T>(s: seq<T>, index: int, x: T)
    requires 0 <= index <= |s|
    ensures multiset(Inserted(s, index, x).value) == multiset(s) + multiset{x}
  {
    assert s == s[..index] + s[index..];
  }

  /** Removing takes out exactly the elements of the removed range. */
  lemma RemoveTakesRange<T>(s: seq<T>, index: int, count: int)
    requires 0 <= index && 0 <= count && index + count <= |s|
    ensures multiset(s) == multiset(Removed(s, index, count).value) + multiset(s[index..index + count])
  {
    assert s == s[..index] + s[index..index + count] + s[index + count..];
  }

  /**
   * A move that completes, in every case including the swaps, as the list
   * without the block with the block put back at the landing index.
   */
  lemma MovedPieces<T>(s: seq<T>, from: int, to: int, count: int)
    requires Moved(s, from, to, count).1 == Pass
    ensures var rest, land := s[..from] + s[from + count..], Landing(from, to, count);
      0 <= land <= |rest| && Moved(s, from, to, count).0 == rest[..land] + s[from..from + count] + rest[land..]
  {
    if Swaps(from, to, count) {
      var rest, land := s[..from] + s[from + 1..], Landing(from, to, count);
      var t := Moved(s, from, to, count).0;
      assert t == rest[..land] + s[from..from + 1] + rest[land..];
    }
  }

  /** A move that completes keeps every element: the list after it is a permutation of the list before. */
  lemma MovePermutes<T>(s: seq<T>, from: int, to: int, count: int)
    requires Moved(s, from, to, count).1 == Pass
    ensures multiset(Moved(s, from, to, count).0) == multiset(s)
  {
    var rest := Removed(s, from, count).value;
    var land := Landing(from, to, count);
    MovedPieces(s, from, to, count);
    RemoveTakesRange(s, from, count);
    assert rest == rest[..land] + rest[land..];
  }

  /**
   * A move that completes puts the block at its landing index and keeps the
   * order of everything else.
   */
  lemma MoveKeepsOrder<T>(s: seq<T>, from: int, to: int, count: int)
    requires Moved(s, from, to, count).1 == Pass
    ensures var t, land := Moved(s, from, to, count).0, Landing(from, to, count);
      t[land..land + count] == s[from..from + count] && t[..land] + t[land + count..] == s[..from] + s[from + count..]
  {
    var rest := Removed(s, from, count).value;
    var land := Landing(from, to, count);
    var t := Moved(s, from, to, count).0;
    MovedPieces(s, from, to, count);
    assert t[..land] == rest[..land];
    assert t[land + count..] == rest[land..];
    assert rest[..land] + rest[land..] == rest;
  }

  /** The pieces of a move, taken apart again and put back at `from`. */
  lemma Reassembled<T>(s: seq<T>, from: int, count: int, dest: int)
    requires 0 <= from && 0 <= count && from + count <= |s| && 0 <= dest <= |s| - count
    ensures var rest, block := s[..from] + s[from + count..], s[from..from + count];
      var t := rest[..dest] + block + rest[dest..];
      t[..dest] + t[dest + count..] == rest && t[dest..dest + count] == block && rest[..from] + block + rest[from..] == s
  {
    var rest, block := s[..from] + s[from + count..], s[from..from + count];
    var t := rest[..dest] + block + rest[dest..];
    assert t[..dest] == rest[..dest] && t[dest + count..] == rest[dest..];
    assert rest[..from] == s[..from] && rest[from..] == s[from + count..];
  }

  /** Moving a completed move's block back from where it landed to where it came from gives the list back. */
  lemma MoveUndone<T>(s: seq<T>, from: int, to: int, count: int)
    requires Moved(s, from, to, count).1 == Pass
    ensures var land := Landing(from, to, count);
      Moved(Moved(s, from, to, count).0, land, if land > from then from else from + count, count) == (s, Pass)
  {
    hide Moved, Removed;
    var t := Moved(s, from, to, count).0;
    var land := Landing(from, to, count);
    var back := if land > from then from else from + count;
    MovedPieces(s, from, to, count);
    Reassembled(s, from, count, land);
    assert Landing(land, back, count) == from;
    assert MovePasses(|t|, land, back, count);
    MovedPieces(t, land, back, count);
  }

  /**
   * A move that fails after the block was taken out loses the block: the
   * list is left with exactly the other elements.
   */
  lemma FailedMoveDropsBlock<T>(s: seq<T>, from: int, to: int, count: int)
    requires Moved(s, from, to, count).1.Fail? && !Swaps(from, to, count)
    requires 0 <= from && 0 <= count && from + count <= |s|
    ensures |Moved(s, from, to, count).0| == |s| - count
    ensures multiset(Moved(s, from, to, count).0) + multiset(s[from..from + count]) == multiset(s)
  {
    RemoveTakesRange(s, from, count);
  }

  /**
   * On five elements, `move(1, 2, 1)` swaps the second and third, and
   * `move(0, 10, 2)` fails having taken the first two out.
   */
  lemma MoveExamples()
    ensures Moved([0, 1, 2, 3, 4], 1, 2, 1) == ([0, 2, 1, 3, 4], Pass)
    ensures Moved([0, 1, 2, 3, 4], 0, 10, 2) == ([2, 3, 4], Fail(IndexOutOfBounds))
  {
    var s := [0, 1, 2, 3, 4];
    assert s[1 := s[2]][2 := s[1]] == [0, 2, 1, 3, 4];
    assert s[..0] + s[2..] == [2, 3, 4];
    assert Removed(s, 0, 2) == Ok([2, 3, 4]);
  }

  /** No two elements after a move come from the same element before it. */
  lemma MovedSourceInjective(from: int, to: int, count: int, n: int, i: int, j: int)
    requires MovePasses(n, from, to, count)
    requires 0 <= i < j < n
    ensures MovedSource(from, to, count, i) != MovedSource(from, to, count, j)
  {
  }
}
