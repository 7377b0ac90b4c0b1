/** Buffers and release fences of `hwcomposer/hwcomposer.cpp` and
    `hwcomposer/simple-dmabuf-drm.c`.

    `hwc_set` runs on one thread and the callback `buffer_release` on another, without
    a lock. The model therefore interleaves single statements of the two. A fence is
    identified with its point on the software timeline, and the compositor releases
    every buffer that is attached to a surface once, at any time after the commit. */
module Composer {
  import opened Bytes

  const NUM_BUFFERS: nat := 1024

  /** struct buffer: `fence` is the fence that release_fence_fd refers to, None for -1. */
  datatype Slot = Slot(fd: nat, busy: bool, fence: Option<nat>)

  /** Where hwc_set is in the treatment of a layer. */
  datatype Setting =
    | SetIdle
    | Checked(slot: nat)              // has found the buffer and read that it is not busy
    | Fenced(slot: nat, point: nat)   // has created the release fence
    | Stored(slot: nat, point: nat)   // has stored it in the buffer
    | Marked(slot: nat, point: nat)   // has set busy

  /** Where buffer_release is, and the fence of the attachment that is being released. */
  datatype Releasing =
    | ReleaseIdle
    | Called(slot: nat, point: nat)
    | Cleared(slot: nat, point: nat)    // has reset busy
    | Signalled(slot: nat, point: nat)  // has advanced the timeline
    | Closed(slot: nat, point: nat)     // has closed the fence

  /** What has become of the attachment a fence was made for. */
  datatype Fate = Making | With(slot: nat) | Returning | Finished

  /** `held` maps the buffers the compositor holds to the fences they were attached
      with. The last three fields are records: the fate of the k-th fence at index
      k - 1; the attachments in the order in which their release advanced the timeline;
      and for every close its attachment and the fence that was closed. */
  datatype Device = Device(
    slots: seq<Slot>, next: nat, timeline: nat, setting: Setting, rel: Releasing, held: map<nat, nat>,
    fates: seq<Fate>, done: seq<nat>, closings: seq<(nat, Option<nat>)>)

  const POWER_ON: Device := Device([], 1, 0, SetIdle, ReleaseIdle, map[], [], [], [])

  /** The loop of get_dmabuf_buffer. */
  function Find(slots: seq<Slot>, fd: nat): (r: Option<nat>)
    ensures r.Some? ==> r.value < |slots| && slots[r.value].fd == fd
    ensures r.None? ==> forall i | 0 <= i < |slots| :: slots[i].fd != fd
  {
    if slots == [] then None
    else if slots[0].fd == fd then Some(0)
    else
      var r := Find(slots[1..], fd);
      if r.Some? then Some(r.value + 1) else None
  }

  datatype Action =
    | Look(fd: nat, usable: bool)  // usable: the format is known and the buffer could be created
    | MakeFence | StoreFence | MarkBusy | Commit
    | Release(slot: nat) | Clear | Signal | Close | Forget

  predicate Enabled(d: Device, a: Action)
  {
    match a
    case Look(fd, usable) => d.setting.SetIdle? && (Find(d.slots, fd).Some? || |d.slots| < NUM_BUFFERS)
    case MakeFence => d.setting.Checked? && d.setting.slot < |d.slots|
    case StoreFence => d.setting.Fenced? && d.setting.slot < |d.slots|
    case MarkBusy => d.setting.Stored? && d.setting.slot < |d.slots|
    case Commit => d.setting.Marked? && d.setting.slot < |d.slots|
    case Release(slot) => d.rel.ReleaseIdle? && slot in d.held && slot < |d.slots|
    case Clear => d.rel.Called? && d.rel.slot < |d.slots|
    case Signal => d.rel.Cleared? && d.rel.slot < |d.slots|
    case Close => d.rel.Signalled? && d.rel.slot < |d.slots|
    case Forget => d.rel.Closed? && d.rel.slot < |d.slots|
  }

  function Becomes(fates: seq<Fate>, point: nat, fate: Fate): (r: seq<Fate>)
    ensures |r| == |fates|
  {
    if 1 <= point <= |fates| then fates[point - 1 := fate] else fates
  }

  function Step(d: Device, a: Action): Device
    requires Enabled(d, a)
  {
    match a
    case Look(fd, usable) =>
      var r := Find(d.slots, fd);
      if r.Some? then (if d.slots[r.value].busy then d else d.(setting := Checked(r.value)))
      else if usable then d.(slots := d.slots + [Slot(fd, false, None)], setting := Checked(|d.slots|))
      else d
    case MakeFence => d.(setting := Fenced(d.setting.slot, d.next), next := d.next + 1, fates := d.fates + [Making])
    case StoreFence =>
      var s := d.setting.slot;
      d.(setting := Stored(s, d.setting.point), slots := d.slots[s := d.slots[s].(fence := Some(d.setting.point))])
    case MarkBusy =>
      var s := d.setting.slot;
      d.(setting := Marked(s, d.setting.point), slots := d.slots[s := d.slots[s].(busy := true)])
    case Commit =>
      d.(setting := SetIdle, held := d.held[d.setting.slot := d.setting.point],
         fates := Becomes(d.fates, d.setting.point, With(d.setting.slot)))
    case Release(slot) =>
      d.(rel := Called(slot, d.held[slot]), held := d.held - {slot}, fates := Becomes(d.fates, d.held[slot], Returning))
    case Clear =>
      var s := d.rel.slot;
      d.(rel := Cleared(s, d.rel.point), slots := d.slots[s := d.slots[s].(busy := false)])
    case Signal =>
      d.(rel := Signalled(d.rel.slot, d.rel.point), timeline := d.timeline + 1, done := d.done + [d.rel.point],
         fates := Becomes(d.fates, d.rel.point, Finished))
    case Close => d.(rel := Closed(d.rel.slot, d.rel.point),
                     closings := d.closings + [(d.rel.point, d.slots[d.rel.slot].fence)])
    case Forget =>
      var s := d.rel.slot;
      d.(rel := ReleaseIdle, slots := d.slots[s := d.slots[s].(fence := None)])
  }

  /** Any interleaving; an action that is not possible is passed over. */
  function Run(actions: seq<Action>): Device
  {
    if actions == [] then POWER_ON
    else
      var d, a := Run(actions[..|actions| - 1]), actions[|actions| - 1];
      if Enabled(d, a) then Step(d, a) else d
  }

  // ----- The invariant of all interleavings -----

  /** A fence that is created and neither committed nor dropped. */
  function PendingSet(d: Device): nat
  {
    if d.setting.Fenced? || d.setting.Stored? || d.setting.Marked? then 1 else 0
  }

  /** A release that has not advanced the timeline yet. */
  function PendingRelease(d: Device): nat
  {
    if d.rel.Called? || d.rel.Cleared? then 1 else 0
  }

  ghost predicate InRange(d: Device)
  {
    && (!d.setting.SetIdle? ==> d.setting.slot < |d.slots|)
    && (!d.rel.ReleaseIdle? ==> d.rel.slot < |d.slots|)
    && (forall s | s in d.held :: s < |d.slots|)
    && (forall i, j | 0 <= i < j < |d.slots| :: d.slots[i].fd != d.slots[j].fd)
  }

  /** A buffer is busy while it is with the compositor, and in the last step before and
      the first step after. */
  ghost predicate BusyMeans(d: Device)
  {
    forall s | 0 <= s < |d.slots| ::
      d.slots[s].busy <==>
        s in d.held || (d.setting.Marked? && d.setting.slot == s) || (d.rel.Called? && d.rel.slot == s)
  }

  /** The buffer that hwc_set works on is not with the compositor. */
  ghost predicate Apart(d: Device)
  {
    && (!d.setting.SetIdle? ==> d.setting.slot !in d.held && !(d.rel.Called? && d.rel.slot == d.setting.slot))
    && (d.rel.Called? ==> d.rel.slot !in d.held)
  }

  ghost predicate Counted(d: Device)
  {
    && d.next == 1 + d.timeline + |d.held| + PendingSet(d) + PendingRelease(d)
    && d.timeline == |d.done|
  }

  ghost predicate Is(d: Device, point: nat, fate: Fate)
  {
    1 <= point < d.next && point - 1 < |d.fates| && d.fates[point - 1] == fate
  }

  /** Every fence belongs to one attachment, which is in one place. */
  ghost predicate Unique(d: Device)
  {
    && |d.fates| == d.next - 1
    && (forall s | s in d.held :: Is(d, d.held[s], With(s)))
    && (PendingSet(d) == 1 ==> Is(d, d.setting.point, Making))
    && (PendingRelease(d) == 1 ==> Is(d, d.rel.point, Returning))
    && (d.rel.Signalled? || d.rel.Closed? ==> Is(d, d.rel.point, Finished))
    && (forall i | 0 <= i < |d.done| :: Is(d, d.done[i], Finished))
    && (forall i, j | 0 <= i < j < |d.done| :: d.done[i] != d.done[j])
  }

  ghost predicate Inv(d: Device)
  {
    InRange(d) && BusyMeans(d) && Apart(d) && Counted(d) && Unique(d)
  }

  lemma StepKeepsRange(d: Device, a: Action)
    requires Enabled(d, a) && InRange(d)
    ensures InRange(Step(d, a))
  {
  }

  lemma StepKeepsBusy(d: Device, a: Action)
    requires Enabled(d, a) && InRange(d) && BusyMeans(d) && Apart(d)
    ensures BusyMeans(Step(d, a))
  {
  }

  lemma StepKeepsApart(d: Device, a: Action)
    requires Enabled(d, a) && InRange(d) && BusyMeans(d) && Apart(d)
    ensures Apart(Step(d, a))
  {
  }

  lemma StepKeepsCount(d: Device, a: Action)
    requires Enabled(d, a) && Apart(d) && Counted(d)
    ensures Counted(Step(d, a))
  {
    if a.Release? {
      RemovalCount(d.held, a.slot);
    }
    if a.Commit? {
      AdditionCount(d.held, d.setting.slot, d.setting.point);
    }
  }

  lemma RemovalCount(m: map<nat, nat>, s: nat)
    requires s in m
    ensures |m - {s}| == |m| - 1
  {
    var rest := m - {s};
    assert m.Keys == rest.Keys + {s};
    assert |rest.Keys| == |m.Keys| - 1;
  }

  lemma AdditionCount(m: map<nat, nat>, s: nat, p: nat)
    requires s !in m
    ensures |m[s := p]| == |m| + 1
  {
    assert m[s := p].Keys == m.Keys + {s};
  }

  lemma MakeFenceKeepsUnique(d: Device, a: Action)
    requires a.MakeFence? && Enabled(d, a) && Apart(d) && Unique(d) && d.next >= 1
    ensures Unique(Step(d, a))
  {
  }

  lemma CommitKeepsUnique(d: Device, a: Action)
    requires a.Commit? && Enabled(d, a) && Apart(d) && Unique(d) && d.next >= 1
    ensures Unique(Step(d, a))
  {
  }

  lemma ReleaseKeepsUnique(d: Device, a: Action)
    requires a.Release? && Enabled(d, a) && Apart(d) && Unique(d) && d.next >= 1
    ensures Unique(Step(d, a))
  {
  }

  lemma SignalKeepsUnique(d: Device, a: Action)
    requires a.Signal? && Enabled(d, a) && Apart(d) && Unique(d) && d.next >= 1
    ensures Unique(Step(d, a))
  {
  }

  lemma StepKeepsUnique(d: Device, a: Action)
    requires Enabled(d, a) && Apart(d) && Unique(d) && d.next >= 1
    ensures Unique(Step(d, a))
  {
    if a.MakeFence? {
      MakeFenceKeepsUnique(d, a);
    } else if a.Commit? {
      CommitKeepsUnique(d, a);
    } else if a.Release? {
      ReleaseKeepsUnique(d, a);
    } else if a.Signal? {
      SignalKeepsUnique(d, a);
    } else {
      var d' := Step(d, a);
      assert d'.fates == d.fates && d'.held == d.held && d'.done == d.done && d'.next == d.next;
    }
  }

  lemma {:induction false} RunKeepsInv(actions: seq<Action>)
    ensures Inv(Run(actions))
  {
    if actions != [] {
      var d, a := Run(actions[..|actions| - 1]), actions[|actions| - 1];
      RunKeepsInv(actions[..|actions| - 1]);
      if Enabled(d, a) {
        StepKeepsRange(d, a);
        StepKeepsBusy(d, a);
        StepKeepsApart(d, a);
        StepKeepsCount(d, a);
        StepKeepsUnique(d, a);
      }
    }
  }

  // ----- Conservation -----

  function BusySlots(d: Device): set<nat>
  {
    set s: nat | 0 <= s < |d.slots| && d.slots[s].busy
  }

  /** In every interleaving the fences handed out exceed the timeline by the number of
      busy buffers, up to a fence made but not yet marked busy and a release that has
      reset busy but not yet advanced the timeline. */
  lemma FencesAreConserved(actions: seq<Action>)
    ensures var d := Run(actions);
            d.next - 1 - d.timeline
            == |BusySlots(d)| + (if d.setting.Fenced? || d.setting.Stored? then 1 else 0)
            + (if d.rel.Cleared? then 1 else 0)
  {
    RunKeepsInv(actions);
    BusyCount(Run(actions));
  }

  lemma BusyCount(d: Device)
    requires InRange(d) && BusyMeans(d) && Apart(d)
    ensures |BusySlots(d)| == |d.held| + (if d.setting.Marked? then 1 else 0) + (if d.rel.Called? then 1 else 0)
  {
    var marked, called := MarkedSlot(d), CalledSlot(d);
    assert BusySlots(d) == d.held.Keys + marked + called;
    DisjointCount(d.held.Keys, marked, called);
  }

  function MarkedSlot(d: Device): (r: set<nat>)
    ensures |r| == if d.setting.Marked? then 1 else 0
  {
    if d.setting.Marked? then {d.setting.slot} else {}
  }

  function CalledSlot(d: Device): (r: set<nat>)
    ensures |r| == if d.rel.Called? then 1 else 0
  {
    if d.rel.Called? then {d.rel.slot} else {}
  }

  lemma DisjointCount(a: set<nat>, b: set<nat>, c: set<nat>)
    requires a * b == {} && a * c == {} && b * c == {}
    ensures |a + b + c| == |a| + |b| + |c|
  {
    assert (a + b) * c == {};
  }

  /** How many fences of a buffer have not been signalled by a release of their own. */
  function OutstandingOn(d: Device, s: nat): nat
  {
    (if s in d.held then 1 else 0)
    + (if PendingSet(d) == 1 && d.setting.slot == s then 1 else 0)
    + (if PendingRelease(d) == 1 && d.rel.slot == s then 1 else 0)
  }

  /** A buffer has at most one outstanding fence, except in the window in which a release
      has reset busy and not yet advanced the timeline. */
  lemma AtMostOneFence(actions: seq<Action>, s: nat)
    ensures var d := Run(actions);
            OutstandingOn(d, s) <= 1 || (OutstandingOn(d, s) == 2 && d.rel.Cleared? && d.rel.slot == s)
  {
    RunKeepsInv(actions);
  }

  ghost predicate AtMostOne(d: Device)
  {
    forall s: nat :: OutstandingOn(d, s) <= 1
  }

  /** AtMostOne at every point of a run. */
  ghost predicate AlwaysOne(actions: seq<Action>)
  {
    AtMostOne(Run(actions)) && (actions != [] ==> AlwaysOne(actions[..|actions| - 1]))
  }

  /** hwc_set makes a fence for a buffer whose release has reset busy and not yet
      advanced the timeline. */
  predicate Doubles(d: Device, a: Action)
  {
    a.MakeFence? && Enabled(d, a) && d.rel.Cleared? && d.rel.slot == d.setting.slot
  }

  predicate Single(actions: seq<Action>)
  {
    actions == [] ||
    (Single(actions[..|actions| - 1]) && !Doubles(Run(actions[..|actions| - 1]), actions[|actions| - 1]))
  }

  lemma StepKeepsOne(d: Device, a: Action)
    requires Enabled(d, a) && InRange(d) && Apart(d) && AtMostOne(d)
    ensures AtMostOne(Step(d, a)) <==> !Doubles(d, a)
  {
    var d' := Step(d, a);
    if Doubles(d, a) {
      assert OutstandingOn(d', d.setting.slot) == 2;
    } else {
      forall s: nat
        ensures OutstandingOn(d', s) <= 1
      {
        assert OutstandingOn(d, s) <= 1;
      }
    }
  }

  /** The runs in which no buffer ever has two outstanding fences: exactly those in which
      no fence is made in that window. */
  lemma {:induction false} AlwaysOneIffSingle(actions: seq<Action>)
    ensures AlwaysOne(actions) <==> Single(actions)
  {
    hide Step, InRange, Apart, AtMostOne, Doubles;
    if actions == [] {
      StartsWithNone();
    } else {
      var d, a := Run(actions[..|actions| - 1]), actions[|actions| - 1];
      AlwaysOneIffSingle(actions[..|actions| - 1]);
      RunKeepsInv(actions[..|actions| - 1]);
      DoublesEnabled(d, a);
      if Enabled(d, a) && AtMostOne(d) {
        StepKeepsOne(d, a);
      }
    }
  }

  lemma StartsWithNone()
    ensures AtMostOne(POWER_ON)
  {
  }

  lemma DoublesEnabled(d: Device, a: Action)
    ensures Doubles(d, a) ==> Enabled(d, a)
  {
  }

  // ----- Which fence a release closes -----

  /** hwc_set stores a new fence in a buffer whose previous release is still under way. */
  predicate Overlaps(d: Device, a: Action)
  {
    a.StoreFence? && Enabled(d, a)
    && (d.rel.Cleared? || d.rel.Signalled? || d.rel.Closed?) && d.rel.slot == d.setting.slot
  }

  predicate Orderly(actions: seq<Action>)
  {
    actions == [] ||
    (Orderly(actions[..|actions| - 1]) && !Overlaps(Run(actions[..|actions| - 1]), actions[|actions| - 1]))
  }

  predicate Holds(d: Device, s: nat, point: nat)
  {
    s < |d.slots| && d.slots[s].fence == Some(point)
  }

  /** Every buffer has the fence of its attachment, and every release has closed its own
      fence, in the order in which the timeline advanced. */
  ghost predicate OwnFences(d: Device)
  {
    && (forall s | s in d.held :: Holds(d, s, d.held[s]))
    && (d.setting.Stored? || d.setting.Marked? ==> Holds(d, d.setting.slot, d.setting.point))
    && (d.rel.Called? || d.rel.Cleared? || d.rel.Signalled? ==> Holds(d, d.rel.slot, d.rel.point))
    && (!d.rel.ReleaseIdle? ==>
          d.rel.slot !in d.held && !((d.setting.Stored? || d.setting.Marked?) && d.setting.slot == d.rel.slot))
    && |d.done| == |d.closings| + (if d.rel.Signalled? then 1 else 0)
    && (d.rel.Signalled? || d.rel.Closed? ==> d.done != [] && d.done[|d.done| - 1] == d.rel.point)
    && (forall i | 0 <= i < |d.closings| :: d.closings[i] == (d.done[i], Some(d.done[i])))
  }

  lemma StepKeepsOwn(d: Device, a: Action)
    requires Enabled(d, a) && InRange(d) && Apart(d) && OwnFences(d) && !Overlaps(d, a)
    ensures OwnFences(Step(d, a))
  {
  }

  /** In every interleaving without such an overlap each attachment's own fence is
      closed, once, as its release advances the timeline. */
  lemma {:induction false} OrderlyClosesOwn(actions: seq<Action>)
    requires Orderly(actions)
    ensures OwnFences(Run(actions))
  {
    if actions != [] {
      var d, a := Run(actions[..|actions| - 1]), actions[|actions| - 1];
      OrderlyClosesOwn(actions[..|actions| - 1]);
      RunKeepsInv(actions[..|actions| - 1]);
      if Enabled(d, a) {
        StepKeepsOwn(d, a);
      }
    }
  }

  /** The same when neither thread is in the middle of something, in plain words: every
      close was of the fence made for the attachment that was released, and every buffer
      still has the fence it was attached with. */
  ghost predicate AllOwn(d: Device)
  {
    && (forall i | 0 <= i < |d.closings| :: d.closings[i].1 == Some(d.closings[i].0))
    && (forall s | s in d.held :: Holds(d, s, d.held[s]))
  }

  ghost predicate ClosedWrong(d: Device)
  {
    exists i | 0 <= i < |d.closings| :: d.closings[i].1 != Some(d.closings[i].0)
  }

  /** A release is about to close a wrong fence, or to forget the next one. */
  ghost predicate ReleasesWrong(d: Device)
  {
    || ((d.rel.Called? || d.rel.Cleared? || d.rel.Signalled?) && !Holds(d, d.rel.slot, d.rel.point))
    || (d.rel.Closed? &&
        (d.rel.slot in d.held || ((d.setting.Stored? || d.setting.Marked?) && d.setting.slot == d.rel.slot)))
  }

  /** A buffer that is with the compositor, or will be, has a wrong fence. */
  ghost predicate HoldsWrong(d: Device)
  {
    || ((d.setting.Stored? || d.setting.Marked?) && !Holds(d, d.setting.slot, d.setting.point))
    || (exists s :: s in d.held && !Holds(d, s, d.held[s]))
  }

  ghost predicate Harmed(d: Device)
  {
    ClosedWrong(d) || ReleasesWrong(d) || HoldsWrong(d)
  }

  lemma ClosedWrongStays(d: Device, a: Action)
    requires Enabled(d, a) && ClosedWrong(d)
    ensures ClosedWrong(Step(d, a))
  {
    var i :| 0 <= i < |d.closings| && d.closings[i].1 != Some(d.closings[i].0);
    assert Step(d, a).closings[i] == d.closings[i];
  }

  lemma ReleasesWrongStays(d: Device, a: Action)
    requires Enabled(d, a) && InRange(d) && Unique(d) && ReleasesWrong(d)
    ensures Harmed(Step(d, a))
  {
    if a.Close? {
      assert Step(d, a).closings[|d.closings|] == (d.rel.point, d.slots[d.rel.slot].fence);
    } else if a.StoreFence? {
      assert Is(d, d.setting.point, Making) && d.setting.point != d.rel.point;
    }
  }

  lemma HoldsWrongStays(d: Device, a: Action)
    requires Enabled(d, a) && InRange(d) && Apart(d) && HoldsWrong(d)
    ensures ReleasesWrong(Step(d, a)) || HoldsWrong(Step(d, a))
  {
    var d' := Step(d, a);
    if s :| s in d.held && !Holds(d, s, d.held[s]) {
      assert !Holds(d', s, d.held[s]);
      assert (s in d'.held && d'.held[s] == d.held[s]) || d'.rel == Called(s, d.held[s]);
    } else if a.Commit? {
      assert d.setting.slot in d'.held;
    }
  }

  /** The harm never goes away. */
  lemma StepKeepsHarm(d: Device, a: Action)
    requires Enabled(d, a) && Inv(d) && Harmed(d)
    ensures Harmed(Step(d, a))
  {
    hide Step, ClosedWrong, ReleasesWrong, HoldsWrong, InRange, Unique, Apart;
    if ClosedWrong(d) {
      ClosedWrongStays(d, a);
    } else if ReleasesWrong(d) {
      ReleasesWrongStays(d, a);
    } else {
      HoldsWrongStays(d, a);
    }
  }

  /** The first overlap always does harm. Before the close, the release goes on to close
      the new fence instead of its own; after it, the new fence is forgotten. */
  lemma OverlapDoesHarm(actions: seq<Action>, a: Action)
    requires Orderly(actions) && Overlaps(Run(actions), a)
    ensures var d := Step(Run(actions), a);
            && Harmed(d) && d.setting.point != d.rel.point
            && (d.rel.Signalled? ==>
                  Enabled(d, Close) && Step(d, Close).closings == d.closings + [(d.rel.point, Some(d.setting.point))])
            && (d.rel.Cleared? ==>
                  Enabled(d, Signal) && Enabled(Step(d, Signal), Close)
                  && Step(Step(d, Signal), Close).closings == d.closings + [(d.rel.point, Some(d.setting.point))])
            && (d.rel.Closed? ==> Enabled(d, Forget) && Step(d, Forget).slots[d.setting.slot].fence == None)
  {
    RunKeepsInv(actions);
    OrderlyClosesOwn(actions);
    PointsDiffer(Run(actions));
  }

  lemma PointsDiffer(d: Device)
    requires Unique(d) && OwnFences(d) && d.setting.Fenced? && !d.rel.ReleaseIdle?
    ensures d.setting.point != d.rel.point
  {
    assert Is(d, d.setting.point, Making);
    if d.rel.Closed? || d.rel.Signalled? {
      assert Is(d, d.done[|d.done| - 1], Finished);
    }
  }

  lemma {:induction false} DisorderHarms(actions: seq<Action>)
    requires !Orderly(actions)
    ensures Harmed(Run(actions))
  {
    hide Step, Inv, Harmed;
    var before, a := actions[..|actions| - 1], actions[|actions| - 1];
    var d := Run(before);
    RunKeepsInv(before);
    if Orderly(before) {
      OverlapDoesHarm(before, a);
    } else {
      DisorderHarms(before);
      if Enabled(d, a) {
        StepKeepsHarm(d, a);
      }
    }
  }

  /** Which runs keep fences and attachments together: exactly those in which hwc_set
      never stores a fence in a buffer whose release is under way. One overlap is never
      made good, whatever comes after it. */
  lemma OwnFencesIffOrderly(actions: seq<Action>)
    ensures OwnFences(Run(actions)) <==> Orderly(actions)
    ensures var d := Run(actions);
            d.setting.SetIdle? && d.rel.ReleaseIdle? ==> (AllOwn(d) <==> Orderly(actions))
  {
    if Orderly(actions) {
      OrderlyClosesOwn(actions);
    } else {
      DisorderHarms(actions);
    }
  }

  ghost predicate Reachable(d: Device)
  {
    exists actions: seq<Action> :: Run(actions) == d
  }

  lemma ReachableStep(d: Device, a: Action)
    requires Reachable(d) && Enabled(d, a)
    ensures Reachable(Step(d, a))
  {
    var actions: seq<Action> :| Run(actions) == d;
    assert (actions + [a])[..|actions|] == actions;
    assert Run(actions + [a]) == Step(d, a);
  }

  /** Such an interleaving exists: the release of the first attachment closes the fence
      of the second, with which the buffer is about to be shown again. */
  lemma WrongFenceClosed()
    ensures exists d :: Reachable(d) && d.closings == [(1, Some(2))] && d.setting == Stored(0, 2)
  {
    var d := MadeAgain();
    ReachableStep(d, StoreFence);
    d := Step(d, StoreFence);
    ReachableStep(d, Signal);
    d := Step(d, Signal);
    ReachableStep(d, Close);
    d := Step(d, Close);
  }

  /** The window of AtMostOneFence is real: a release has reset busy, and hwc_set has already made the
      next fence for the same buffer. */
  lemma TwoFences()
    ensures exists d :: Reachable(d) && OutstandingOn(d, 0) == 2
  {
    var d := MadeAgain();
    assert OutstandingOn(d, 0) == 2;
  }

  /** The first attachment is being released while the second is being prepared. */
  lemma MadeAgain() returns (d: Device)
    ensures Reachable(d)
    ensures d == Device([Slot(7, false, Some(1))], 3, 0, Fenced(0, 2), Cleared(0, 1), map[],
                          [Returning, Making], [], [])
  {
    d := Shown();
    ReachableStep(d, Release(0));
    d := Step(d, Release(0));
    ReachableStep(d, Clear);
    d := Step(d, Clear);
    ReachableStep(d, Look(7, true));
    d := Step(d, Look(7, true));
    ReachableStep(d, MakeFence);
    d := Step(d, MakeFence);
  }

  lemma Shown() returns (d: Device)
    ensures Reachable(d)
    ensures d == Device([Slot(7, true, Some(1))], 2, 0, SetIdle, ReleaseIdle, map[0 := 1], [With(0)], [], [])
  {
    assert Run([]) == POWER_ON;
    d := POWER_ON;
    ReachableStep(d, Look(7, true));
    d := Step(d, Look(7, true));
    ReachableStep(d, MakeFence);
    d := Step(d, MakeFence);
    ReachableStep(d, StoreFence);
    d := Step(d, StoreFence);
    ReachableStep(d, MarkBusy);
    d := Step(d, MarkBusy);
    ReachableStep(d, Commit);
    d := Step(d, Commit);
  }

  // ----- When the k-th fence is signalled -----

  predicate IsSignalled(d: Device, k: nat) { 1 <= k <= d.timeline }

  /** The fences that are signalled are those of the attachments that were released. */
  ghost predicate FencesExact(d: Device)
  {
    forall k: nat :: IsSignalled(d, k) <==> k in d.done
  }

  ghost predicate InOrder(done: seq<nat>)
  {
    forall i | 0 <= i < |done| :: done[i] == i + 1
  }

  /** FencesExact at every point of a run. */
  ghost predicate AlwaysExact(actions: seq<Action>)
  {
    FencesExact(Run(actions)) && (actions != [] ==> AlwaysExact(actions[..|actions| - 1]))
  }

  /** At every point of a run a fence is signalled exactly if its attachment has been
      released, if and only if the compositor releases in the order of the commits. */
  lemma {:induction false} ExactIffInOrder(actions: seq<Action>)
    ensures AlwaysExact(actions) <==> InOrder(Run(actions).done)
  {
    hide FencesExact, InOrder;
    RunKeepsInv(actions);
    if actions == [] {
      OrderedIsExact(POWER_ON);
      EmptyInOrder();
    } else {
      var before := actions[..|actions| - 1];
      ExactIffInOrder(before);
      DoneGrows(actions);
      if InOrder(Run(actions).done) {
        OrderedPrefix(Run(before).done, Run(actions).done);
        OrderedIsExact(Run(actions));
      } else if InOrder(Run(before).done) && FencesExact(Run(actions)) {
        NextInOrder(Run(before), Run(actions));
      }
    }
  }

  lemma EmptyInOrder()
    ensures InOrder([])
  {
  }

  lemma DoneGrows(actions: seq<Action>)
    requires actions != []
    ensures Grows(Run(actions[..|actions| - 1]).done, Run(actions).done)
  {
    hide Step, Enabled;
    var d, a := Run(actions[..|actions| - 1]), actions[|actions| - 1];
    if Enabled(d, a) {
      StepGrows(d, a);
    }
  }

  predicate Grows(s: seq<nat>, t: seq<nat>) { t == s || (|t| == |s| + 1 && s <= t) }

  lemma StepGrows(d: Device, a: Action)
    requires Enabled(d, a)
    ensures Grows(d.done, Step(d, a).done)
  {
  }

  lemma OrderedPrefix(s: seq<nat>, t: seq<nat>)
    requires InOrder(t) && s <= t
    ensures InOrder(s)
  {
  }

  lemma OrderedIsExact(d: Device)
    requires InOrder(d.done) && d.timeline == |d.done|
    ensures FencesExact(d)
  {
    forall k: nat
      ensures IsSignalled(d, k) <==> k in d.done
    {
      if IsSignalled(d, k) {
        assert d.done[k - 1] == k;
      }
    }
  }

  lemma NextInOrder(d: Device, d': Device)
    requires InOrder(d.done) && FencesExact(d') && d'.timeline == |d'.done|
    requires Grows(d.done, d'.done)
    ensures InOrder(d'.done)
  {
    if d'.done != d.done {
      var n := |d'.done|;
      assert IsSignalled(d', n);
      var i :| 0 <= i < n && d'.done[i] == n;
    }
  }
}
