/** `hwc_set`, `get_dmabuf_buffer` and `buffer_release` as methods on the device they
    change, when no statement of the other thread comes in between. */
module ComposerObject {
  import opened Bytes
  import opened Composer

  datatype Composition = Framebuffer | Overlay | Background | FramebufferTarget | Sideband
  datatype Format = RGBA8888 | RGBX8888 | OtherFormat

  /** A graphics buffer; `creatable` says whether create_dmabuf_buffer would succeed. */
  datatype Handle = Handle(primeFd: nat, format: Format, creatable: bool)

  /** An input layer; -1 stands for no acquire fence. */
  datatype Layer = Layer(
    skip: bool, composition: Composition, unblended: bool, handle: Option<Handle>, acquireFence: int)

  predicate Wanted(l: Layer)
  {
    !l.skip && l.composition == Overlay && l.unblended && l.handle.Some?
  }

  predicate UsableHandle(h: Handle) { !h.format.OtherFormat? && h.creatable }

  /** The statements of hwc_set for one layer. */
  function LayerActions(d: Device, l: Layer): seq<Action>
  {
    if !Wanted(l) then []
    else
      var h := l.handle.value;
      var look := Look(h.primeFd, UsableHandle(h));
      var r := Find(d.slots, h.primeFd);
      if (if r.Some? then !d.slots[r.value].busy else UsableHandle(h))
      then [look, MakeFence, StoreFence, MarkBusy, Commit] else [look]
  }

  datatype Lookup = Found(slot: nat) | NotFound | Aborts

  /** All buffers are taken by other file descriptors. */
  predicate NoRoom(d: Device, fd: nat)
  {
    Find(d.slots, fd).None? && |d.slots| >= NUM_BUFFERS
  }

  /** What the first statement of a turn does. */
  lemma Looking(d: Device, fd: nat, usable: bool)
    requires d.setting.SetIdle?
    ensures Enabled(d, Look(fd, usable)) <==> !NoRoom(d, fd)
    ensures !NoRoom(d, fd) ==>
              var r := Find(d.slots, fd);
              Step(d, Look(fd, usable))
              == if r.Some? then (if d.slots[r.value].busy then d else d.(setting := Checked(r.value)))
                 else if usable then d.(slots := d.slots + [Slot(fd, false, None)], setting := Checked(|d.slots|))
                 else d
  {
  }

  /** Executing actions in a row. */
  ghost predicate Executes(d: Device, actions: seq<Action>, d': Device)
    decreases |actions|
  {
    if actions == [] then d' == d
    else Enabled(d, actions[0]) && Executes(Step(d, actions[0]), actions[1..], d')
  }

  /** The acquire fence of a layer is closed on every path; on the path that shows the
      layer it is closed even if there is none. */
  function Closes(fds: seq<int>): seq<int>
  {
    if fds == [] then []
    else (if fds[0] != -1 then [fds[0]] else []) + Closes(fds[1..])
  }

  function AcquireFences(layers: seq<Layer>): (r: seq<int>)
    ensures |r| == |layers| && forall i | 0 <= i < |layers| :: r[i] == layers[i].acquireFence
  {
    if layers == [] then [] else [layers[0].acquireFence] + AcquireFences(layers[1..])
  }

  /** The release fences of some layers rise from `lo` to below `hi`, and only layers
      that are shown have one. */
  ghost predicate Rising(fences: seq<Option<nat>>, layers: seq<Layer>, lo: nat, hi: nat)
  {
    && |fences| <= |layers| && lo <= hi
    && (forall i | 0 <= i < |fences| && fences[i].Some? :: Wanted(layers[i]) && lo <= fences[i].value < hi)
    && (forall i, j | 0 <= i < j < |fences| && fences[i].Some? && fences[j].Some? :: fences[i].value < fences[j].value)
  }

  lemma RisingSnoc(fences: seq<Option<nat>>, layers: seq<Layer>, lo: nat, hi: nat, fence: Option<nat>)
    requires Rising(fences, layers, lo, hi) && |fences| < |layers|
    requires fence.Some? ==> Wanted(layers[|fences|]) && fence.value == hi
    ensures Rising(fences + [fence], layers, lo, hi + (if fence.Some? then 1 else 0))
  {
  }

  // ----- What a turn of hwc_set is for -----

  /** The first buffer with a file descriptor. */
  ghost predicate IsFirst(slots: seq<Slot>, fd: nat, i: nat)
  {
    i < |slots| && slots[i].fd == fd && forall j | 0 <= j < i :: slots[j].fd != fd
  }

  /** A layer that is to be shown on its own: not skipped, an overlay without blending, and
      with a graphics buffer. */
  ghost predicate Standalone(l: Layer)
  {
    !l.skip && l.composition == Overlay && l.unblended && l.handle.Some?
  }

  /** It can be shown now: its buffer is known and not busy, or new, of a known format, and
      there is room for it. */
  ghost predicate Displays(l: Layer, slots: seq<Slot>)
  {
    && Standalone(l)
    && var h := l.handle.value;
    || (exists i: nat :: IsFirst(slots, h.primeFd, i) && !slots[i].busy)
    || ((forall i | 0 <= i < |slots| :: slots[i].fd != h.primeFd)
        && |slots| < 1024 && h.format in {RGBA8888, RGBX8888} && h.creatable)
  }

  /** A new buffer for which there is no room. */
  ghost predicate Overfull(l: Layer, slots: seq<Slot>)
  {
    Standalone(l) && (forall i | 0 <= i < |slots| :: slots[i].fd != l.handle.value.primeFd) && |slots| >= 1024
  }

  /** The i-th buffer, an idle one or a new one, has been attached with the next fence, and
      nothing else has changed. */
  ghost predicate Attached(d: Device, d': Device, fd: nat, i: nat)
  {
    && i <= |d.slots| && |d'.slots| == (if i == |d.slots| then i + 1 else |d.slots|)
    && (i < |d.slots| ==> d.slots[i].fd == fd && !d.slots[i].busy)
    && d'.slots[i] == Slot(fd, true, Some(d.next))
    && (forall j | 0 <= j < |d.slots| && j != i :: d'.slots[j] == d.slots[j])
    && d'.next == d.next + 1 && d'.held == d.held[i := d.next]
    && d'.timeline == d.timeline && d'.done == d.done && d'.closings == d.closings
  }

  /** What one turn does: a layer that can be shown gets the next release fence and its
      buffer is attached; for any other nothing happens. */
  ghost predicate Turned(d: Device, l: Layer, releaseFence: Option<nat>, d': Device)
  {
    if Displays(l, d.slots) then
      releaseFence == Some(d.next) && exists i: nat :: Attached(d, d', l.handle.value.primeFd, i)
    else releaseFence == None && d' == d
  }

  lemma DisplaysIff(l: Layer, slots: seq<Slot>)
    ensures Displays(l, slots)
            <==> && Wanted(l)
                 && var r := Find(slots, l.handle.value.primeFd);
                 if r.Some? then !slots[r.value].busy else |slots| < NUM_BUFFERS && UsableHandle(l.handle.value)
    ensures Overfull(l, slots) <==> Wanted(l) && Find(slots, l.handle.value.primeFd).None? && |slots| >= NUM_BUFFERS
  {
    if Wanted(l) {
      var fd := l.handle.value.primeFd;
      FindIsLeast(slots, fd);
      var r := Find(slots, fd);
      if r.Some? {
        assert IsFirst(slots, fd, r.value);
      }
    }
  }

  lemma {:induction false} FindIsLeast(slots: seq<Slot>, fd: nat)
    ensures Find(slots, fd).Some? ==> IsFirst(slots, fd, Find(slots, fd).value)
  {
    if slots != [] && slots[0].fd != fd {
      FindIsLeast(slots[1..], fd);
    }
  }

  class HwComposer {
    var slots: seq<Slot>
    var nextSyncPoint: nat
    var timeline: nat
    var closedAcquires: seq<int>
    ghost var held: map<nat, nat>
    ghost var fates: seq<Fate>
    ghost var done: seq<nat>
    ghost var closings: seq<(nat, Option<nat>)>

    /** The device between calls. */
    ghost function View(): Device
      reads this
    {
      Device(slots, nextSyncPoint, timeline, SetIdle, ReleaseIdle, held, fates, done, closings)
    }

    constructor ()
      ensures View() == POWER_ON && closedAcquires == []
    {
      slots, nextSyncPoint, timeline, closedAcquires := [], 1, 0, [];
      held, fates, done, closings := map[], [], [], [];
    }

    /** get_dmabuf_buffer: the loop over the buffers and the creation of a new one. */
    method GetDmabufBuffer(h: Handle) returns (r: Lookup)
      modifies this`slots
      ensures r.Aborts? <==> NoRoom(old(View()), h.primeFd)
      ensures var found := Find(old(slots), h.primeFd);
              if found.Some? then r == Found(found.value) && slots == old(slots)
              else if !r.Aborts? && UsableHandle(h) then
                r == Found(|old(slots)|) && slots == old(slots) + [Slot(h.primeFd, false, None)]
              else !r.Found? && slots == old(slots)
    {
      var i := 0;
      while i < |slots|
        invariant 0 <= i <= |slots| && slots == old(slots)
        invariant forall j | 0 <= j < i :: slots[j].fd != h.primeFd
      {
        if slots[i].fd == h.primeFd {
          FindIsFirst(slots, h.primeFd, i);
          return Found(i);
        }
        i := i + 1;
      }
      if |slots| >= NUM_BUFFERS {
        return Aborts;
      }
      if h.format.OtherFormat? || !h.creatable {
        return NotFound;
      }
      slots := slots + [Slot(h.primeFd, false, None)];
      return Found(|slots| - 1);
    }

    /** One turn of the loop in hwc_set, with the release fence of the layer. */
    method SetLayer(l: Layer) returns (aborted: bool, releaseFence: Option<nat>)
      modifies this
      ensures aborted <==> Overfull(l, old(slots))
      ensures !aborted ==> Turned(old(View()), l, releaseFence, View())
      ensures aborted ==> View() == old(View()) && closedAcquires == old(closedAcquires)
      ensures !aborted ==>
                && Executes(old(View()), LayerActions(old(View()), l), View())
                && Closes(closedAcquires) == Closes(old(closedAcquires)) + Closes([l.acquireFence])
                && (l.acquireFence != -1 ==> closedAcquires == old(closedAcquires) + [l.acquireFence])
    {
      hide Step, Enabled, Showing, Displays, Overfull, Attached;
      aborted, releaseFence := false, None;
      DisplaysIff(l, slots);
      ClosesOne(closedAcquires, l.acquireFence);
      ghost var d := View();
      if l.skip || l.composition != Overlay || !l.unblended || l.handle.None? {
        CloseIfAny(l.acquireFence);
        return;
      }
      var h := l.handle.value;
      ghost var look := Look(h.primeFd, UsableHandle(h));
      Looking(d, h.primeFd, UsableHandle(h));
      var r := GetDmabufBuffer(h);
      if r.Aborts? {
        return true, None;
      }
      if r.NotFound? || slots[r.slot].busy {
        CloseIfAny(l.acquireFence);
        ExecutesOne(d, look);
        return;
      }
      var s := r.slot;
      assert View() == Step(d, look).(setting := SetIdle);
      LookAndShow(d, h.primeFd, UsableHandle(h), s);
      var point := Show(s, l.acquireFence);
      releaseFence := Some(point);
      ShowingAttaches(d, h.primeFd, UsableHandle(h), s);
    }

    /** The rest of the turn: make the release fence, attach the buffer and commit. */
    method Show(s: nat, acquireFence: int) returns (point: nat)
      requires s < |slots|
      modifies this
      ensures View() == Showing(old(View()), s) && point == old(nextSyncPoint) && nextSyncPoint == point + 1
      ensures closedAcquires == old(closedAcquires) + [acquireFence]
    {
      point := nextSyncPoint;
      nextSyncPoint := nextSyncPoint + 1;
      slots := slots[s := slots[s].(fence := Some(point))];
      slots := slots[s := slots[s].(busy := true)];
      held := held[s := point];
      fates := Becomes(fates + [Making], point, With(s));
      closedAcquires := closedAcquires + [acquireFence];
      assert slots == old(slots)[s := Slot(old(slots)[s].fd, true, Some(point))];
    }

    method CloseIfAny(fd: int)
      modifies this`closedAcquires
      ensures closedAcquires == if fd != -1 then old(closedAcquires) + [fd] else old(closedAcquires)
    {
      if fd != -1 {
        closedAcquires := closedAcquires + [fd];
      }
    }

    /** hwc_set; it handles all layers unless the assertion in get_dmabuf_buffer fails. */
    method HwcSet(layers: seq<Layer>)
      returns (aborted: bool, releaseFences: seq<Option<nat>>, ghost actions: seq<Action>, ghost devices: seq<Device>)
      modifies this
      ensures Executes(old(View()), actions, View())
      ensures Rising(releaseFences, layers, old(nextSyncPoint), nextSyncPoint)
      ensures var n := |releaseFences|;
              if aborted then n < |layers| && Overfull(layers[n], slots) else n == |layers|
      // the device before each turn and after it
      ensures |devices| == |releaseFences| + 1 && devices[0] == old(View()) && devices[|releaseFences|] == View()
      ensures forall i | 0 <= i < |releaseFences| :: Turned(devices[i], layers[i], releaseFences[i], devices[i + 1])
      // every acquire fence is closed exactly once, in the order of the layers
      ensures Closes(closedAcquires) == Closes(old(closedAcquires)) + Closes(AcquireFences(layers[..|releaseFences|]))
    {
      hide LayerActions, Rising, Step, Turned, Overfull;
      aborted, releaseFences, actions, devices := false, [], [], [View()];
      var k := 0;
      while k < |layers|
        invariant 0 <= k <= |layers| && |releaseFences| == k && !aborted
        invariant Executes(old(View()), actions, View())
        invariant |devices| == k + 1 && devices[0] == old(View()) && devices[k] == View()
        invariant forall i | 0 <= i < k :: Turned(devices[i], layers[i], releaseFences[i], devices[i + 1])
        invariant Closes(closedAcquires) == Closes(old(closedAcquires)) + Closes(AcquireFences(layers[..k]))
      {
        ghost var d := View();
        ghost var more := LayerActions(d, layers[k]);
        var fence;
        aborted, fence := SetLayer(layers[k]);
        if aborted {
          break;
        }
        ExecutesConcat(old(View()), actions, d, more, View());
        ClosesSnoc(layers, k);
        actions := actions + more;
        releaseFences, devices := releaseFences + [fence], devices + [View()];
        k := k + 1;
      }
      TurnsRise(devices, layers, releaseFences);
    }

    /** buffer_release, called for a buffer the compositor holds. */
    method BufferRelease(s: nat)
      requires s < |slots| && s in held
      modifies this
      ensures Executes(old(View()), [Release(s), Clear, Signal, Close, Forget], View())
      ensures slots == old(slots)[s := Slot(old(slots)[s].fd, false, None)] && timeline == old(timeline) + 1
      ensures held == old(held) - {s} && done == old(done) + [old(held)[s]] && nextSyncPoint == old(nextSyncPoint)
      ensures closings == old(closings) + [(old(held)[s], old(slots)[s].fence)]
      ensures closedAcquires == old(closedAcquires)
    {
      ghost var d := View();
      ghost var point := held[s];
      slots := slots[s := slots[s].(busy := false)];
      timeline := timeline + 1;
      closings := closings + [(point, slots[s].fence)];
      slots := slots[s := slots[s].(fence := None)];
      held := held - {s};
      fates := Becomes(Becomes(fates, point, Returning), point, Finished);
      done := done + [point];
      assert View() == Released(d, s);
      ReleaseExecutes(d, s);
    }
  }

  lemma {:induction false} FindIsFirst(slots: seq<Slot>, fd: nat, i: nat)
    requires i < |slots| && slots[i].fd == fd && forall j | 0 <= j < i :: slots[j].fd != fd
    ensures Find(slots, fd) == Some(i)
  {
    if i > 0 {
      FindIsFirst(slots[1..], fd, i - 1);
    }
  }

  // ----- Actions in a row -----

  lemma {:induction false} ExecutesConcat(d: Device, a: seq<Action>, d1: Device, b: seq<Action>, d2: Device)
    requires Executes(d, a, d1) && Executes(d1, b, d2)
    ensures Executes(d, a + b, d2)
    decreases |a|
  {
    hide Step, Enabled;
    if a == [] {
      assert a + b == b;
    } else {
      assert (a + b)[0] == a[0] && (a + b)[1..] == a[1..] + b;
      ExecutesConcat(Step(d, a[0]), a[1..], d1, b, d2);
    }
  }

  /** What executes from power-on is a run of the two threads. */
  lemma {:induction false} ExecutesIsRun(before: seq<Action>, actions: seq<Action>, d: Device)
    requires Executes(Run(before), actions, d)
    ensures Run(before + actions) == d
    decreases |actions|
  {
    hide Step, Enabled;
    if actions == [] {
      assert before + actions == before;
    } else {
      var next := before + [actions[0]];
      assert next[..|before|] == before;
      ExecutesIsRun(next, actions[1..], d);
      assert next + actions[1..] == before + actions;
    }
  }

  lemma TwoMore(d: Device, a: Action, b: Action, rest: seq<Action>, d': Device)
    requires Enabled(d, a) && Enabled(Step(d, a), b) && Executes(Step(Step(d, a), b), rest, d')
    ensures Executes(d, [a, b] + rest, d')
  {
    hide Step, Enabled;
    assert ([a, b] + rest)[1..] == [b] + rest && ([b] + rest)[1..] == rest;
  }

  /** The device after a buffer has been shown. */
  ghost function Showing(d: Device, s: nat): Device
    requires s < |d.slots|
  {
    d.(next := d.next + 1, held := d.held[s := d.next], slots := d.slots[s := Slot(d.slots[s].fd, true, Some(d.next))],
       fates := Becomes(d.fates + [Making], d.next, With(s)))
  }

  lemma ShowingAttaches(d: Device, fd: nat, usable: bool, s: nat)
    requires d.setting.SetIdle? && Enabled(d, Look(fd, usable))
    requires Step(d, Look(fd, usable)).setting == Checked(s) && s < |Step(d, Look(fd, usable)).slots|
    ensures Attached(d, Showing(Step(d, Look(fd, usable)).(setting := SetIdle), s), fd, s)
  {
  }

  lemma TurnedIsRising(d: Device, l: Layer, fence: Option<nat>, d': Device)
    requires Turned(d, l, fence, d')
    ensures fence.Some? ==> Wanted(l) && fence.value == d.next
    ensures d'.next == d.next + (if fence.Some? then 1 else 0)
  {
  }

  lemma {:induction false} TurnsRise(devices: seq<Device>, layers: seq<Layer>, fences: seq<Option<nat>>)
    requires |devices| == |fences| + 1 && |fences| <= |layers|
    requires forall i | 0 <= i < |fences| :: Turned(devices[i], layers[i], fences[i], devices[i + 1])
    ensures Rising(fences, layers, devices[0].next, devices[|fences|].next)
  {
    hide Turned, Wanted;
    var n := |fences|;
    if n > 0 {
      TurnsRise(devices[..n], layers, fences[..n - 1]);
      TurnedIsRising(devices[n - 1], layers[n - 1], fences[n - 1], devices[n]);
      assert fences == fences[..n - 1] + [fences[n - 1]];
      RisingSnoc(fences[..n - 1], layers, devices[0].next, devices[n - 1].next, fences[n - 1]);
    }
  }

  lemma LookAndShow(d: Device, fd: nat, usable: bool, s: nat)
    requires d.setting.SetIdle? && Enabled(d, Look(fd, usable))
    requires Step(d, Look(fd, usable)).setting == Checked(s) && s < |Step(d, Look(fd, usable)).slots|
    ensures Executes(d, [Look(fd, usable), MakeFence, StoreFence, MarkBusy, Commit],
                     Showing(Step(d, Look(fd, usable)).(setting := SetIdle), s))
  {
    var look := Look(fd, usable);
    var d1 := Step(d, look);
    var d2 := Step(d1, MakeFence);
    var d3 := Step(d2, StoreFence);
    var d4 := Step(d3, MarkBusy);
    var d5 := Step(d4, Commit);
    assert d5 == Showing(d1.(setting := SetIdle), s);
    ExecutesOne(d4, Commit);
    TwoMore(d2, StoreFence, MarkBusy, [Commit], d5);
    TwoMore(d, look, MakeFence, [StoreFence, MarkBusy] + [Commit], d5);
    assert [look, MakeFence] + ([StoreFence, MarkBusy] + [Commit]) == [look, MakeFence, StoreFence, MarkBusy, Commit];
  }

  lemma ExecutesOne(d: Device, a: Action)
    requires Enabled(d, a)
    ensures Executes(d, [a], Step(d, a))
  {
    hide Step, Enabled;
    assert [a][1..] == [];
    assert Executes(Step(d, a), [], Step(d, a));
  }

  /** The device after a buffer has been released. */
  ghost function Released(d: Device, s: nat): Device
    requires s < |d.slots| && s in d.held
  {
    var point := d.held[s];
    d.(held := d.held - {s}, timeline := d.timeline + 1, done := d.done + [point],
       closings := d.closings + [(point, d.slots[s].fence)],
       slots := d.slots[s := Slot(d.slots[s].fd, false, None)],
       fates := Becomes(Becomes(d.fates, point, Returning), point, Finished))
  }

  lemma ReleaseExecutes(d: Device, s: nat)
    requires d.rel.ReleaseIdle? && s < |d.slots| && s in d.held
    ensures Executes(d, [Release(s), Clear, Signal, Close, Forget], Released(d, s))
  {
    var d1 := Step(d, Release(s));
    var d2 := Step(d1, Clear);
    var d3 := Step(d2, Signal);
    var d4 := Step(d3, Close);
    var d5 := Step(d4, Forget);
    assert d5 == Released(d, s);
    ExecutesOne(d4, Forget);
    TwoMore(d2, Signal, Close, [Forget], d5);
    TwoMore(d, Release(s), Clear, [Signal, Close] + [Forget], d5);
    assert [Release(s), Clear] + ([Signal, Close] + [Forget]) == [Release(s), Clear, Signal, Close, Forget];
  }

  // ----- Closing acquire fences -----

  lemma {:induction false} ClosesConcat(a: seq<int>, b: seq<int>)
    ensures Closes(a + b) == Closes(a) + Closes(b)
  {
    if a == [] {
      assert a + b == b;
    } else {
      assert (a + b)[0] == a[0] && (a + b)[1..] == a[1..] + b;
      ClosesConcat(a[1..], b);
    }
  }

  lemma ClosesOne(closed: seq<int>, fd: int)
    ensures Closes(closed + [fd]) == Closes(closed) + Closes([fd])
    ensures fd == -1 ==> Closes(closed) == Closes(closed) + Closes([fd])
  {
    ClosesConcat(closed, [fd]);
    assert [fd][1..] == [];
  }

  lemma ClosesSnoc(layers: seq<Layer>, k: nat)
    requires k < |layers|
    ensures Closes(AcquireFences(layers[..k + 1]))
                == Closes(AcquireFences(layers[..k])) + Closes([layers[k].acquireFence])
  {
    AcquireSnoc(layers[..k], layers[k]);
    assert layers[..k] + [layers[k]] == layers[..k + 1];
    ClosesConcat(AcquireFences(layers[..k]), [layers[k].acquireFence]);
  }

  /** Closes leaves out nothing but the places without a fence. */
  lemma {:induction false} ClosesAll(fds: seq<int>)
    ensures -1 !in Closes(fds)
    ensures forall fd :: fd != -1 ==> multiset(Closes(fds))[fd] == multiset(fds)[fd]
  {
    if fds != [] {
      ClosesAll(fds[1..]);
      assert fds == [fds[0]] + fds[1..];
    }
  }

  lemma {:induction false} AcquireSnoc(layers: seq<Layer>, l: Layer)
    ensures AcquireFences(layers + [l]) == AcquireFences(layers) + [l.acquireFence]
  {
    if layers != [] {
      assert (layers + [l])[0] == layers[0] && (layers + [l])[1..] == layers[1..] + [l];
      AcquireSnoc(layers[1..], l);
    }
  }
}
