/**
 * The navigation controller of the viewer: which image is shown, and where
 * "next", "previous" and "remove" move to, decided against a directory
 * listing fetched fresh for every action (web/App.tsx, onNext, onPrev,
 * onRemove, onOpen and the file-drop listener).
 *
 * The host services (`get_entries`, `move_to_trash`, `mime_check`, the open
 * dialog) appear only through the values they return, passed in as
 * parameters.
 */
module Navigation {

  /** The session's only state: the sentinel "no image" or the shown path. */
  datatype Current = Empty | Path(p: string)

  /** What one navigation handler does to the session. `Reset` is the page
      reload, which starts the viewer again in the empty state. */
  datatype Outcome = NoChange | Set(p: string) | Reset

  /** The session after a handler with the given outcome. */
  function After(url: Current, o: Outcome): (u: Current)
    ensures o.NoChange? ==> u == url
    ensures o.Set? ==> u == Path(o.p)
    ensures o.Reset? ==> u.Empty?
  {
    match o
    case NoChange => url
    case Set(p) => Path(p)
    case Reset => Empty
  }

  /** JavaScript's `Array.prototype.indexOf`: the first position of `x`, or -1. */
  function IndexOf<T(==)>(list: seq<T>, x: T): (i: int)
    ensures -1 <= i < |list|
    ensures i == -1 <==> x !in list
    ensures 0 <= i ==> list[i] == x && x !in list[..i]
  {
    if |list| == 0 then -1
    else if list[0] == x then 0
    else
      var j := IndexOf(list[1..], x);
      if j == -1 then -1
      else
        assert list[..j + 1] == [list[0]] + list[1..][..j];
        j + 1
  }

  /** The current path occurs in `list` for the first time at position `i`. */
  predicate FirstAt(list: seq<string>, url: Current, i: int) {
    url.Path? && 0 <= i < |list| && list[i] == url.p && url.p !in list[..i]
  }

  /** No path occurs twice in the listing. */
  predicate Distinct(list: seq<string>) {
    forall i, j :: 0 <= i < j < |list| ==> list[i] != list[j]
  }

  lemma FirstAtIsIndexOf(list: seq<string>, url: Current, i: int)
    requires FirstAt(list, url, i)
    ensures IndexOf(list, url.p) == i
  {
  }

  lemma DistinctFirstAt(list: seq<string>, k: int)
    requires Distinct(list) && 0 <= k < |list|
    ensures FirstAt(list, Path(list[k]), k)
  {
  }

  /** onNext (web/App.tsx:122-138). */
  function NextTarget(url: Current, list: seq<string>): (r: Outcome)
    ensures url.Empty? ==> r == NoChange
    ensures url.Path? && |list| == 0 ==> r == Reset
    ensures url.Path? && |list| == 1 ==> r == NoChange
    ensures url.Path? && |list| >= 2 && url.p !in list ==> r == Set(list[0])
    ensures r.Set? ==> r.p in list
  {
    if url.Empty? then NoChange
    else if |list| == 0 then Reset
    else if |list| == 1 then NoChange
    else
      var index := IndexOf(list, url.p);
      if index == |list| - 1 || index == -1 then Set(list[0])
      else Set(list[index + 1])
  }

  /** onPrev (web/App.tsx:140-158). A path that is no longer listed moves to
      the FIRST entry, like onNext does: -1 is tested after 0 and before the
      general case, so it never reaches the wrap to the last entry. */
  function PrevTarget(url: Current, list: seq<string>): (r: Outcome)
    ensures url.Empty? ==> r == NoChange
    ensures url.Path? && |list| == 0 ==> r == Reset
    ensures url.Path? && |list| == 1 ==> r == NoChange
    ensures url.Path? && |list| >= 2 && url.p !in list ==> r == Set(list[0])
    ensures r.Set? ==> r.p in list
  {
    if url.Empty? then NoChange
    else if |list| == 0 then Reset
    else if |list| == 1 then NoChange
    else
      var index := IndexOf(list, url.p);
      if index == 0 then Set(list[|list| - 1])
      else if index == -1 then Set(list[0])
      else Set(list[index - 1])
  }

  /** Where onNext goes from the first occurrence of the current path. */
  lemma NextFrom(url: Current, list: seq<string>, i: int)
    requires |list| >= 2 && FirstAt(list, url, i)
    ensures i < |list| - 1 ==> NextTarget(url, list) == Set(list[i + 1])
    ensures i == |list| - 1 ==> NextTarget(url, list) == Set(list[0])
  {
    FirstAtIsIndexOf(list, url, i);
  }

  /** Where onPrev goes from the first occurrence of the current path. */
  lemma PrevFrom(url: Current, list: seq<string>, i: int)
    requires |list| >= 2 && FirstAt(list, url, i)
    ensures i == 0 ==> PrevTarget(url, list) == Set(list[|list| - 1])
    ensures 0 < i ==> PrevTarget(url, list) == Set(list[i - 1])
  {
    FirstAtIsIndexOf(list, url, i);
  }

  /** `m` applications of a handler's effect, against an unchanging listing. */
  function Iterate(step: Current -> Current, url: Current, m: nat): Current
    decreases m
  {
    if m == 0 then url else Iterate(step, step(url), m - 1)
  }

  /** The effect of one "next" on the session. */
  function NextOf(list: seq<string>): Current -> Current {
    u => After(u, NextTarget(u, list))
  }

  /** The effect of one "previous" on the session. */
  function PrevOf(list: seq<string>): Current -> Current {
    u => After(u, PrevTarget(u, list))
  }

  /** The session after `m` presses of "next". */
  function NextTimes(url: Current, list: seq<string>, m: nat): Current {
    Iterate(NextOf(list), url, m)
  }

  /** The session after `m` presses of "previous". */
  function PrevTimes(url: Current, list: seq<string>, m: nat): Current {
    Iterate(PrevOf(list), url, m)
  }

  /** One "next" on a listing without duplicates moves one place round the cycle. */
  lemma NextStep(list: seq<string>, k: int)
    requires Distinct(list) && 0 <= k < |list|
    ensures After(Path(list[k]), NextTarget(Path(list[k]), list))
         == Path(if k == |list| - 1 then list[0] else list[k + 1])
  {
    if |list| >= 2 {
      DistinctFirstAt(list, k);
      NextFrom(Path(list[k]), list, k);
    }
  }

  /** One "previous" on a listing without duplicates moves one place back round the cycle. */
  lemma PrevStep(list: seq<string>, k: int)
    requires Distinct(list) && 0 <= k < |list|
    ensures After(Path(list[k]), PrevTarget(Path(list[k]), list))
         == Path(if k == 0 then list[|list| - 1] else list[k - 1])
  {
    if |list| >= 2 {
      DistinctFirstAt(list, k);
      PrevFrom(Path(list[k]), list, k);
    }
  }

  lemma {:induction false} IterateAdd(step: Current -> Current, url: Current, a: nat, b: nat)
    ensures Iterate(step, url, a + b) == Iterate(step, Iterate(step, url, a), b)
    decreases a
  {
    if a > 0 {
      IterateAdd(step, step(url), a - 1, b);
    }
  }

  /** The entry after position `i` round the cycle. */
  function Following(list: seq<string>, i: nat): string
    requires i < |list|
  {
    if i == |list| - 1 then list[0] else list[i + 1]
  }

  /** The entry before position `i` round the cycle. */
  function Preceding(list: seq<string>, i: nat): string
    requires i < |list|
  {
    if i == 0 then list[|list| - 1] else list[i - 1]
  }

  /** `step` moves each entry to the following one, the last to the first. */
  ghost predicate StepsForward(step: Current -> Current, list: seq<string>) {
    forall i: nat {:trigger Following(list, i)} :: i < |list| ==> step(Path(list[i])) == Path(Following(list, i))
  }

  /** `step` moves each entry to the preceding one, the first to the last. */
  ghost predicate StepsBackward(step: Current -> Current, list: seq<string>) {
    forall i: nat {:trigger Preceding(list, i)} :: i < |list| ==> step(Path(list[i])) == Path(Preceding(list, i))
  }

  lemma {:induction false} IterateForward(step: Current -> Current, list: seq<string>, k: nat, m: nat)
    requires StepsForward(step, list) && k + m < |list|
    ensures Iterate(step, Path(list[k]), m) == Path(list[k + m])
    decreases m
  {
    if m > 0 {
      assert step(Path(list[k])) == Path(Following(list, k));
      IterateForward(step, list, k + 1, m - 1);
    }
  }

  lemma {:induction false} IterateBackward(step: Current -> Current, list: seq<string>, k: nat, m: nat)
    requires StepsBackward(step, list) && m <= k < |list|
    ensures Iterate(step, Path(list[k]), m) == Path(list[k - m])
    decreases m
  {
    if m > 0 {
      assert step(Path(list[k])) == Path(Preceding(list, k));
      IterateBackward(step, list, k - 1, m - 1);
    }
  }

  /** Forward from position `k`, the first entry is reached after passing the last. */
  lemma ForwardToFirst(step: Current -> Current, list: seq<string>, k: nat)
    requires StepsForward(step, list) && k < |list|
    ensures Iterate(step, Path(list[k]), |list| - k) == Path(list[0])
  {
    var n := |list|;
    var last := Path(list[n - 1]);
    IterateForward(step, list, k, n - 1 - k);
    assert step(last) == Path(Following(list, n - 1));
    IterateAdd(step, Path(list[k]), n - 1 - k, 1);
  }

  /** A forward cycle returns to its start after one step per entry. */
  lemma ForwardCycle(step: Current -> Current, list: seq<string>, k: nat)
    requires StepsForward(step, list) && k < |list|
    ensures Iterate(step, Path(list[k]), |list|) == Path(list[k])
  {
    ForwardToFirst(step, list, k);
    IterateForward(step, list, 0, k);
    IterateAdd(step, Path(list[k]), |list| - k, k);
  }

  /** Backward from position `k`, the last entry is reached after passing the first. */
  lemma BackwardToLast(step: Current -> Current, list: seq<string>, k: nat)
    requires StepsBackward(step, list) && k < |list|
    ensures Iterate(step, Path(list[k]), k + 1) == Path(list[|list| - 1])
  {
    var first := Path(list[0]);
    IterateBackward(step, list, k, k);
    assert step(first) == Path(Preceding(list, 0));
    IterateAdd(step, Path(list[k]), k, 1);
  }

  /** A backward cycle returns to its start after one step per entry. */
  lemma BackwardCycle(step: Current -> Current, list: seq<string>, k: nat)
    requires StepsBackward(step, list) && k < |list|
    ensures Iterate(step, Path(list[k]), |list|) == Path(list[k])
  {
    BackwardToLast(step, list, k);
    IterateBackward(step, list, |list| - 1, |list| - 1 - k);
    IterateAdd(step, Path(list[k]), k + 1, |list| - 1 - k);
  }

  /** Pressing "next" as many times as the listing is long comes back to the start. */
  lemma NextCycleReturns(list: seq<string>, k: nat)
    requires Distinct(list) && k < |list|
    ensures NextTimes(Path(list[k]), list, |list|) == Path(list[k])
  {
    forall i | 0 <= i < |list|
      ensures NextOf(list)(Path(list[i])) == Path(Following(list, i))
    {
      NextStep(list, i);
    }
    ForwardCycle(NextOf(list), list, k);
  }

  /** Pressing "previous" as many times as the listing is long comes back to the start. */
  lemma PrevCycleReturns(list: seq<string>, k: nat)
    requires Distinct(list) && k < |list|
    ensures PrevTimes(Path(list[k]), list, |list|) == Path(list[k])
  {
    forall i | 0 <= i < |list|
      ensures PrevOf(list)(Path(list[i])) == Path(Preceding(list, i))
    {
      PrevStep(list, i);
    }
    BackwardCycle(PrevOf(list), list, k);
  }

  /** "previous" undoes "next", for a listed path in a listing without duplicates. */
  lemma PrevUndoesNext(list: seq<string>, k: int)
    requires Distinct(list) && 0 <= k < |list|
    ensures var u := After(Path(list[k]), NextTarget(Path(list[k]), list));
            After(u, PrevTarget(u, list)) == Path(list[k])
  {
    NextStep(list, k);
    PrevStep(list, if k == |list| - 1 then 0 else k + 1);
  }

  /** "next" undoes "previous", for a listed path in a listing without duplicates. */
  lemma NextUndoesPrev(list: seq<string>, k: int)
    requires Distinct(list) && 0 <= k < |list|
    ensures var u := After(Path(list[k]), PrevTarget(Path(list[k]), list));
            After(u, NextTarget(u, list)) == Path(list[k])
  {
    PrevStep(list, k);
    NextStep(list, if k == 0 then |list| - 1 else k - 1);
  }

  /** The position onRemove reads from the post-delete listing, as the code
      is written (web/App.tsx:169, 182-186): a pre-delete position past the
      new end wraps to the first entry, every other one is used unchanged,
      including the -1 of a path missing from the pre-delete listing. */
  function RemoveIndexAsWritten(index: int, newLength: nat): (j: int)
    requires -1 <= index && newLength >= 1
    ensures j < newLength
    ensures j < 0 <==> index == -1
  {
    if index > newLength - 1 then 0 else index
  }

  /** The as-written read is out of range for a path that the pre-delete
      listing does not contain (renamed or removed outside the viewer):
      `newList[-1]` is `undefined` in JavaScript. */
  lemma RemoveUnlistedReadsOutOfRange()
    ensures RemoveIndexAsWritten(IndexOf(["a.png", "b.png"], "x.png"), 1) == -1
    ensures RemoveTargetAsWritten(Path("x.png"), ["a.png", "b.png"], true, ["a.png"]) == StoresUndefined
  {
  }

  /** The position onRemove evidently means to read: always a valid
      position of the post-delete listing, the first one for a path that
      was not listed, and the as-written one wherever that is in range. */
  function RemoveIndex(index: int, newLength: nat): (j: int)
    requires -1 <= index && newLength >= 1
    ensures 0 <= j < newLength
    ensures index == -1 ==> j == 0
    ensures 0 <= index ==> j == RemoveIndexAsWritten(index, newLength)
  {
    if index > newLength - 1 || index == -1 then 0 else index
  }

  /** onRemove (web/App.tsx:160-187) with the corrected read of the
      post-delete listing, given the pre-delete listing, whether the move to
      the trash succeeded, and the post-delete listing. */
  function RemoveTarget(url: Current, list: seq<string>, trashOk: bool, newList: seq<string>): (r: Outcome)
    ensures url.Empty? <==> r == NoChange
    ensures url.Path? && (|list| == 0 || !trashOk || |newList| == 0) ==> r == Reset
    ensures url.Path? && |list| > 0 && trashOk && |newList| > 0 ==> r.Set?
    ensures r.Set? ==> r.p in newList
  {
    if url.Empty? then NoChange
    else if |list| == 0 then Reset
    else
      var index := IndexOf(list, url.p);
      if !trashOk then Reset
      else if |newList| == 0 then Reset
      else Set(newList[RemoveIndex(index, |newList|)])
  }

  /** What onRemove as written can do: what the corrected handler does, or
      `setUrl(newList[-1])`, which stores `undefined` in `url`. */
  datatype RemoveOutcomeAsWritten = Done(o: Outcome) | StoresUndefined

  /** onRemove exactly as the code is written (web/App.tsx:160-187): it
      stores `undefined` precisely when the path was missing from the
      pre-delete listing and the handler gets as far as the second listing;
      every other run agrees with the corrected handler. */
  function RemoveTargetAsWritten(url: Current, list: seq<string>, trashOk: bool, newList: seq<string>)
    : (r: RemoveOutcomeAsWritten)
    ensures r == StoresUndefined <==>
              url.Path? && |list| > 0 && trashOk && |newList| > 0 && url.p !in list
    ensures r.Done? ==> r.o == RemoveTarget(url, list, trashOk, newList)
  {
    if url.Empty? then Done(NoChange)
    else if |list| == 0 then Done(Reset)
    else
      var index := IndexOf(list, url.p);
      if !trashOk then Done(Reset)
      else if |newList| == 0 then Done(Reset)
      else
        var j := RemoveIndexAsWritten(index, |newList|);
        if j < 0 then StoresUndefined else Done(Set(newList[j]))
  }

  /** Where onRemove goes from the first occurrence of the current path:
      the same position in the new listing, or its first entry when that
      position is past the new end. */
  lemma RemoveFrom(url: Current, list: seq<string>, newList: seq<string>, i: int)
    requires FirstAt(list, url, i) && |newList| >= 1
    ensures i > |newList| - 1 ==> RemoveTarget(url, list, true, newList) == Set(newList[0])
    ensures i <= |newList| - 1 ==> RemoveTarget(url, list, true, newList) == Set(newList[i])
  {
    FirstAtIsIndexOf(list, url, i);
  }

  /** When the post-delete listing is the old one without the removed path,
      onRemove lands exactly where onNext would have gone: the entry after
      the removed one, or the first entry when the last one was removed. */
  lemma RemoveLandsOnNext(list: seq<string>, k: int)
    requires Distinct(list) && |list| >= 2 && 0 <= k < |list|
    ensures RemoveTarget(Path(list[k]), list, true, list[..k] + list[k + 1..])
         == NextTarget(Path(list[k]), list)
  {
    var newList := list[..k] + list[k + 1..];
    DistinctFirstAt(list, k);
    RemoveFrom(Path(list[k]), list, newList, k);
    NextFrom(Path(list[k]), list, k);
    if k < |list| - 1 {
      assert newList[k] == list[k + 1];
    } else {
      assert newList[0] == list[0];
    }
  }

  /** Removing the last of three entries shows the FIRST remaining one: the
      code wraps past-the-end positions to 0 instead of stepping back. */
  lemma RemoveLastWrapsToFirst()
    ensures RemoveTarget(Path("c"), ["a", "b", "c"], true, ["a", "b"]) == Set("a")
  {
    RemoveFrom(Path("c"), ["a", "b", "c"], ["a", "b"], 2);
  }

  /** What the open dialog hands back: nothing (cancelled), one path, or
      several (the dialog is opened with `multiple: false`). */
  datatype PickResult = Cancelled | Picked(path: string) | PickedMany(paths: seq<string>)

  /** The accept rule of onOpen (web/App.tsx:116-119): a single non-empty
      path is shown; a cancelled dialog, an empty path or an array changes
      nothing. */
  function OpenTarget(pick: PickResult): (r: Outcome)
    ensures !r.Reset?
    ensures r.Set? <==> pick.Picked? && pick.path != ""
    ensures r.Set? ==> r.p == pick.path
  {
    match pick
    case Picked(path) => if path == "" then NoChange else Set(path)
    case _ => NoChange
  }

  /** The accept rule of the file-drop listener (web/App.tsx:216-221): the
      first dropped path is shown when the host's mime check accepts it.
      With nothing dropped there is no first path and nothing is shown. */
  function DropTarget(payload: seq<string>, mimeSafe: bool): (r: Outcome)
    ensures !r.Reset?
    ensures r.Set? <==> |payload| > 0 && mimeSafe
    ensures r.Set? ==> r.p == payload[0]
  {
    if |payload| == 0 || !mimeSafe then NoChange else Set(payload[0])
  }
}
