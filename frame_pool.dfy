/**
 * The manager's bookkeeping as plain values: who owns each frame, the FIFO
 * queue of free frames, and the frames each registered process holds, in
 * page order. `Owned` is the invariant the manager keeps; the lemmas show
 * that the one step the manager takes (hand the first k free frames to a new
 * pid) keeps it.
 */
module FramePool {

  /** The owner recorded for a frame nobody holds. */
  const FREE: int := -1

  predicate NoDup(s: seq<int>)
  {
    forall i, j :: 0 <= i < j < |s| ==> s[i] != s[j]
  }

  /** The frame indices 0, 1, ..., n - 1 in ascending order. */
  function Ascending(n: nat): seq<int>
  {
    seq(n, i => i)
  }

  /** `owners` after every frame listed in `frames` is given to `pid`. */
  function Assign(owners: seq<int>, frames: seq<int>, pid: int): (r: seq<int>)
    requires forall i :: 0 <= i < |frames| ==> 0 <= frames[i] < |owners|
    ensures |r| == |owners|
    ensures forall g :: 0 <= g < |owners| ==> r[g] == if g in frames then pid else owners[g]
    decreases |frames|
  {
    if frames == [] then owners
    else
      var last := frames[|frames| - 1];
      assert frames == frames[..|frames| - 1] + [last];
      Assign(owners, frames[..|frames| - 1], pid)[last := pid]
  }

  /** Assigning one more frame is a single update of the owners. */
  lemma AssignSnoc(owners: seq<int>, frames: seq<int>, f: int, pid: int)
    requires forall i :: 0 <= i < |frames| ==> 0 <= frames[i] < |owners|
    requires 0 <= f < |owners|
    ensures Assign(owners, frames + [f], pid) == Assign(owners, frames, pid)[f := pid]
  {
    assert (frames + [f])[..|frames|] == frames;
  }

  /** The number of frames held by the processes in `order`. */
  function Allocated(order: seq<int>, frames: map<int, seq<int>>): (n: int)
    requires forall i :: 0 <= i < |order| ==> order[i] in frames
    ensures n >= 0
    decreases |order|
  {
    if order == [] then 0
    else Allocated(order[..|order| - 1], frames) + |frames[order[|order| - 1]]|
  }

  /**
   * The ownership invariant over `owners` (the owner of each frame), `free`
   * (the free queue), `frames` (pid to the frames of its pages, in page order)
   * and `order` (the registered pids in insertion order):
   *   - a frame is recorded as free exactly when it is queued, and queued once;
   *   - every frame a process holds is owned by that process, and vice versa,
   *     so no frame is held by two processes;
   *   - free frames plus held frames make up all frames.
   */
  ghost predicate Owned(owners: seq<int>, free: seq<int>, frames: map<int, seq<int>>, order: seq<int>)
  {
    && NoDup(free)
    && NoDup(order)
    && (forall i :: 0 <= i < |free| ==> 0 <= free[i] < |owners|)
    && (forall f :: 0 <= f < |owners| ==> (owners[f] == FREE <==> f in free))
    && (forall pid :: pid in frames <==> pid in order)
    && FREE !in frames
    && (forall pid :: pid in frames ==> NoDup(frames[pid]))
    && (forall pid, i :: pid in frames && 0 <= i < |frames[pid]| ==>
          0 <= frames[pid][i] < |owners| && owners[frames[pid][i]] == pid)
    && (forall f :: 0 <= f < |owners| && owners[f] != FREE ==> owners[f] in frames && f in frames[owners[f]])
    && |free| + Allocated(order, frames) == |owners|
  }

  /** Registering a new pid adds its frames to the held count and changes no one else's. */
  lemma {:induction false} AllocatedExtend(order: seq<int>, frames: map<int, seq<int>>, pid: int, s: seq<int>)
    requires forall i :: 0 <= i < |order| ==> order[i] in frames
    requires pid !in order
    ensures Allocated(order, frames[pid := s]) == Allocated(order, frames)
    ensures Allocated(order + [pid], frames[pid := s]) == Allocated(order, frames) + |s|
    decreases |order|
  {
    if order != [] {
      AllocatedExtend(order[..|order| - 1], frames, pid, s);
    }
    assert (order + [pid])[..|order|] == order;
  }

  /** At construction every frame is free and queued in ascending order. */
  lemma InitiallyOwned(n: nat)
    ensures Owned(seq(n, _ => FREE), Ascending(n), map[], [])
    ensures forall f :: f in Ascending(n) <==> 0 <= f < n
  {
    var s := Ascending(n);
    forall f | f in s
      ensures 0 <= f < n
    {
      var i :| 0 <= i < n && s[i] == f;
    }
    forall f | 0 <= f < n
      ensures f in s
    {
      assert s[f] == f;
    }
    assert Allocated([], map[]) == 0;
  }

  /** No frame is both held by a process and queued as free. */
  lemma HeldFramesNotFree(owners: seq<int>, free: seq<int>, frames: map<int, seq<int>>, order: seq<int>,
                          pid: int, i: int)
    requires Owned(owners, free, frames, order)
    requires pid in frames && 0 <= i < |frames[pid]|
    ensures frames[pid][i] !in free
  {
  }

  /** No frame a process holds is among the first k queued frames. */
  lemma HeldFramesNotQueued(owners: seq<int>, free: seq<int>, frames: map<int, seq<int>>, order: seq<int>, k: int)
    requires Owned(owners, free, frames, order)
    requires 0 <= k <= |free|
    ensures forall pid, i :: pid in frames && 0 <= i < |frames[pid]| ==> frames[pid][i] !in free[..k]
  {
    forall pid, i | pid in frames && 0 <= i < |frames[pid]|
      ensures frames[pid][i] !in free[..k]
    {
      HeldFramesNotFree(owners, free, frames, order, pid, i);
      assert forall j :: 0 <= j < k ==> free[..k][j] == free[j];
    }
  }

  /** Two different processes never hold the same frame. */
  lemma Exclusive(owners: seq<int>, free: seq<int>, frames: map<int, seq<int>>, order: seq<int>,
                  p: int, i: int, q: int, j: int)
    requires Owned(owners, free, frames, order)
    requires p in frames && 0 <= i < |frames[p]|
    requires q in frames && 0 <= j < |frames[q]|
    requires p != q
    ensures frames[p][i] != frames[q][j]
  {
  }

  /**
   * Taking a queue without duplicates from the front, the next frame is not
   * among those already taken, and taking it extends them by one.
   */
  lemma NextNotTaken(free: seq<int>, k: int)
    requires NoDup(free) && 0 <= k < |free|
    ensures free[k] !in free[..k]
    ensures free[..k + 1] == free[..k] + [free[k]]
    ensures free[k..][0] == free[k] && free[k + 1..] == free[k..][1..]
  {
    assert forall i :: 0 <= i < k ==> free[..k][i] == free[i];
  }

  /** Splitting a queue without duplicates at k gives two disjoint parts that together hold it. */
  lemma SplitQueue(free: seq<int>, k: int)
    requires NoDup(free) && 0 <= k <= |free|
    ensures NoDup(free[..k]) && NoDup(free[k..])
    ensures forall f :: f in free <==> f in free[..k] || f in free[k..]
    ensures forall f :: f in free[..k] ==> f !in free[k..]
  {
    assert free == free[..k] + free[k..];
    forall f | f in free[..k]
      ensures f !in free[k..]
    {
      var i :| 0 <= i < k && free[..k][i] == f;
      assert forall j :: 0 <= j < |free| - k ==> free[k..][j] == free[k + j] != free[i];
    }
  }

  /**
   * The allocation step: the first k queued frames go, in queue order, to a
   * new pid; they leave the queue, their owner becomes pid, and pid is
   * registered last. The invariant still holds afterwards.
   */
  lemma TakeFront(owners: seq<int>, free: seq<int>, frames: map<int, seq<int>>, order: seq<int>,
                  pid: int, k: int)
    requires Owned(owners, free, frames, order)
    requires pid != FREE && pid !in frames
    requires 0 <= k <= |free|
    ensures Owned(Assign(owners, free[..k], pid), free[k..], frames[pid := free[..k]], order + [pid])
  {
    var taken, rest := free[..k], free[k..];
    SplitQueue(free, k);
    var owners' := Assign(owners, taken, pid);
    var frames' := frames[pid := taken];
    var order' := order + [pid];

    assert pid !in order;
    assert NoDup(order') by {
      forall i, j | 0 <= i < j < |order'|
        ensures order'[i] != order'[j]
      {
        if j == |order| {
          assert order[i] in order;
        }
      }
    }
    assert forall i :: 0 <= i < |rest| ==> rest[i] == free[k + i];
    forall f | 0 <= f < |owners'|
      ensures owners'[f] == FREE <==> f in rest
    {
    }
    forall p, i | p in frames' && 0 <= i < |frames'[p]|
      ensures 0 <= frames'[p][i] < |owners'| && owners'[frames'[p][i]] == p
    {
      if p != pid {
        assert owners[frames[p][i]] == p;
        assert frames[p][i] !in free;
      }
    }
    forall f | 0 <= f < |owners'| && owners'[f] != FREE
      ensures owners'[f] in frames' && f in frames'[owners'[f]]
    {
      if f !in taken {
        assert owners'[f] == owners[f];
      }
    }
    AllocatedExtend(order, frames, pid, taken);
  }

  /** Handing frames that were free back to FREE right after assigning them restores the owners. */
  lemma ReleaseUndoesAssign(owners: seq<int>, taken: seq<int>, pid: int)
    requires forall i :: 0 <= i < |taken| ==> 0 <= taken[i] < |owners| && owners[taken[i]] == FREE
    ensures Assign(Assign(owners, taken, pid), taken, FREE) == owners
  {
    var back := Assign(Assign(owners, taken, pid), taken, FREE);
    forall g | 0 <= g < |owners|
      ensures back[g] == owners[g]
    {
      if g in taken {
        var i :| 0 <= i < |taken| && taken[i] == g;
      }
    }
  }

  /**
   * The rollback of the allocation loop when the failing step took no frame:
   * the first j frames were assigned to pid and are released again, in order,
   * to the back of the queue. Owners are restored and the invariant holds,
   * but the queue comes back rotated: free[j..] + free[..j].
   */
  lemma RollbackRestoresOwnership(owners: seq<int>, free: seq<int>, frames: map<int, seq<int>>, order: seq<int>,
                                  pid: int, j: int)
    requires Owned(owners, free, frames, order)
    requires pid != FREE && pid !in frames
    requires 0 <= j <= |free|
    ensures Assign(Assign(owners, free[..j], pid), free[..j], FREE) == owners
    ensures Owned(owners, free[j..] + free[..j], frames, order)
  {
    ReleaseUndoesAssign(owners, free[..j], pid);
    Rotated(free, j);
    var rotated := free[j..] + free[..j];
    assert forall i :: 0 <= i < |rotated| ==> rotated[i] in free;
  }

  /** Moving the first j queued frames to the back keeps the same frames, each once. */
  lemma Rotated(free: seq<int>, j: int)
    requires NoDup(free) && 0 <= j <= |free|
    ensures NoDup(free[j..] + free[..j])
    ensures forall f :: f in free[j..] + free[..j] <==> f in free
  {
    SplitQueue(free, j);
    var rotated := free[j..] + free[..j];
    forall a, b | 0 <= a < b < |rotated|
      ensures rotated[a] != rotated[b]
    {
      if a < |free| - j && b >= |free| - j {
        assert rotated[a] in free[j..] && rotated[b] in free[..j];
      }
    }
  }

  /**
   * The rollback of the allocation loop when the failing step had already
   * taken its frame (free[j]) but not yet recorded it: that frame is not
   * released. It stays owned by a pid that is never registered, so the
   * invariant no longer holds.
   */
  lemma RollbackLeaksTakenFrame(owners: seq<int>, free: seq<int>, frames: map<int, seq<int>>, order: seq<int>,
                                pid: int, j: int)
    requires Owned(owners, free, frames, order)
    requires pid != FREE && pid !in frames
    requires 0 <= j < |free|
    ensures Assign(Assign(owners, free[..j + 1], pid), free[..j], FREE)[free[j]] == pid
    ensures !Owned(Assign(Assign(owners, free[..j + 1], pid), free[..j], FREE), free[j + 1..] + free[..j], frames, order)
  {
    var leaked := free[j];
    assert leaked in free[..j + 1];
    assert leaked !in free[..j] by {
      assert forall i :: 0 <= i < j ==> free[..j][i] == free[i] != free[j];
    }
  }

  /**
   * The allocation step with the sentinel itself as pid: the first frame
   * taken leaves the queue yet its owner reads FREE, so "owner is FREE
   * exactly for queued frames" fails, and with it the invariant, even for
   * the registry as it was.
   */
  lemma SentinelPidBreaksOwnership(owners: seq<int>, free: seq<int>, frames: map<int, seq<int>>, order: seq<int>, k: int)
    requires Owned(owners, free, frames, order)
    requires 0 < k <= |free|
    ensures free[0] !in free[k..]
    ensures Assign(owners, free[..k], FREE)[free[0]] == FREE
    ensures !(forall f :: 0 <= f < |owners| ==> (Assign(owners, free[..k], FREE)[f] == FREE <==> f in free[k..]))
    ensures !Owned(Assign(owners, free[..k], FREE), free[k..], frames, order)
  {
    assert free[0] in free[..k];
  }
}
