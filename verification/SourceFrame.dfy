/** server/source.c: decoded frames shared by reference count between the source, as its
    current frame, and the workers of the streams attached to it. Each step is a region run
    under a lock. */
module SourceFrames {
  import opened Basics
  import opened RefCounts

  type ImageId = nat
  type WorkerId = nat

  /** A worker: the frame it holds a reference to, and the address it last held, which it
      compares with the current frame's even after releasing it. */
  datatype Worker = Worker(holds: Option<Address>, last: Option<Address>)

  datatype State = State(
    free: seq<ImageId>,             // the decoder's free list
    ready: seq<ImageId>,            // the decoder's ready list
    images: nat,                    // images allocated so far, numbered from 0
    current: Option<Address>,
    frames: map<Address, ImageId>,  // the images of the SourceFrames not yet released
    counters: Counters,
    workers: map<WorkerId, Worker>)

  datatype Step =
    | Allocate                // the decoder allocates an image to fill, having none free
    | Complete                // the decoder completes the image at the head of its free list
    | Publish(at: Address)    // provideData publishes the oldest ready image
    | Drop(w: WorkerId)       // getFrame releases the worker's last frame
    | Take(w: WorkerId)       // getFrame references a current frame at another address
    | Exit(w: WorkerId)       // the worker ends and releases what it holds
    | Release                 // the collector releases the oldest garbage

  function Initial(workers: set<WorkerId>): State {
    State([], [], 0, None, map[], NO_COUNTERS, map w | w in workers :: Worker(None, None))
  }

  ghost predicate Enabled(s: State, step: Step) {
    match step
    case Allocate => s.free == []
    case Complete => s.free != []
    case Publish(at) => s.ready != [] && at !in s.frames
    case Drop(w) => w in s.workers
    case Take(w) => w in s.workers && s.workers[w].holds == None && s.current != s.workers[w].last && s.current.Some?
    case Exit(w) => w in s.workers
    case Release => s.counters.garbage != []
  }

  /** Every access through a reference is to a frame that is still allocated and counted. */
  ghost predicate Defined(s: State, step: Step)
    requires Enabled(s, step)
  {
    match step
    case Allocate => true
    case Complete => true
    case Publish(_) => s.current.Some? ==> Live(s.counters, s.current.value)
    case Drop(w) => s.workers[w].holds.Some? ==> Live(s.counters, s.workers[w].holds.value)
    case Take(w) => Live(s.counters, s.current.value)
    case Exit(w) => s.workers[w].holds.Some? ==> Live(s.counters, s.workers[w].holds.value)
    case Release => s.counters.garbage[0] in s.frames
  }

  function UnrefIf(c: Counters, a: Option<Address>): Counters
    requires a.Some? ==> Live(c, a.value)
  {
    if a.Some? then Unref(c, a.value) else c
  }

  function Apply(s: State, step: Step): State
    requires Enabled(s, step) && Defined(s, step)
  {
    match step
    case Allocate => s.(free := [s.images], images := s.images + 1)
    case Complete => s.(ready := s.ready + [s.free[0]], free := s.free[1..])
    case Publish(at) =>
      s.(frames := s.frames[at := s.ready[0]], ready := s.ready[1..], current := Some(at),
         counters := New(UnrefIf(s.counters, s.current), at))
    case Drop(w) =>
      s.(workers := s.workers[w := Worker(None, s.workers[w].holds)],
         counters := UnrefIf(s.counters, s.workers[w].holds))
    case Take(w) =>
      s.(workers := s.workers[w := Worker(s.current, s.workers[w].last)],
         counters := Ref(s.counters, s.current.value))
    case Exit(w) =>
      s.(workers := s.workers[w := Worker(None, None)],
         counters := UnrefIf(s.counters, s.workers[w].holds))
    case Release =>
      var f := s.counters.garbage[0];
      s.(free := s.free + [s.frames[f]], frames := s.frames - {f}, counters := Collect(s.counters))
  }

  ghost function Holders(workers: map<WorkerId, Worker>, f: Address): set<WorkerId> {
    set w | w in workers && workers[w].holds == Some(f)
  }

  /** 1 for being current and 1 for every worker that holds the frame. */
  ghost function References(current: Option<Address>, workers: map<WorkerId, Worker>): Address -> nat {
    f => (if current == Some(f) then 1 else 0) + |Holders(workers, f)|
  }

  ghost predicate Counted(s: State) {
    && Exact(s.counters, References(s.current, s.workers))
    && s.counters.count.Keys == s.frames.Keys
    && (s.current.Some? ==> s.current.value in s.frames)
    && (forall w :: w in s.workers && s.workers[w].holds.Some? ==> s.workers[w].holds.value in s.frames)
  }

  /** Every image is in exactly one place: the free list, the ready list or one frame. */
  ghost predicate Placed(s: State) {
    && NoDuplicates(s.free) && NoDuplicates(s.ready)
    && (forall i :: i in s.free ==> i !in s.ready)
    && (forall f :: f in s.frames ==> s.frames[f] !in s.free && s.frames[f] !in s.ready)
    && (forall f, g :: f in s.frames && g in s.frames && s.frames[f] == s.frames[g] ==> f == g)
    && (forall i: nat :: i < s.images <==> i in s.free || i in s.ready || InFrame(s, i))
  }

  ghost predicate InFrame(s: State, i: ImageId) {
    exists f :: f in s.frames && s.frames[f] == i
  }

  ghost predicate Inv(s: State) {
    Counted(s) && Placed(s)
  }

  lemma InitialInv(workers: set<WorkerId>)
    ensures Inv(Initial(workers))
  {
  }

  lemma HoldersChange(workers: map<WorkerId, Worker>, w: WorkerId, now: Worker, f: Address)
    requires w in workers
    ensures |Holders(workers[w := now], f)| + (if workers[w].holds == Some(f) then 1 else 0)
         == |Holders(workers, f)| + (if now.holds == Some(f) then 1 else 0)
  {
    var before, after := Holders(workers, f), Holders(workers[w := now], f);
    assert before - {w} == after - {w};
    assert |before| == |before - {w}| + if w in before then 1 else 0;
    assert |after| == |after - {w}| + if w in after then 1 else 0;
  }

  lemma ReferencesChange(current: Option<Address>, workers: map<WorkerId, Worker>, w: WorkerId, now: Worker)
    requires w in workers
    ensures forall f: Address ::
      References(current, workers[w := now])(f) + (if workers[w].holds == Some(f) then 1 else 0)
        == References(current, workers)(f) + (if now.holds == Some(f) then 1 else 0)
  {
    forall f: Address ensures
      References(current, workers[w := now])(f) + (if workers[w].holds == Some(f) then 1 else 0)
        == References(current, workers)(f) + (if now.holds == Some(f) then 1 else 0)
    {
      HoldersChange(workers, w, now, f);
    }
  }

  lemma LetGoKeepsCounts(s: State, step: Step)
    requires Counted(s) && Enabled(s, step) && (step.Drop? || step.Exit?)
    ensures Defined(s, step) && Counted(Apply(s, step))
  {
    hide References, Exact;
    var held := s.workers[step.w].holds;
    var now := if step.Drop? then Worker(None, held) else Worker(None, None);
    var workers := s.workers[step.w := now];
    ReferencesChange(s.current, s.workers, step.w, now);
    if held.Some? {
      UnrefExact(s.counters, References(s.current, s.workers), References(s.current, workers), held.value);
    } else {
      SameExact(s.counters, References(s.current, s.workers), References(s.current, workers));
    }
  }

  lemma TakeKeepsCounts(s: State, w: WorkerId)
    requires Counted(s) && Enabled(s, Take(w))
    ensures Defined(s, Take(w)) && Counted(Apply(s, Take(w)))
  {
    var now := Worker(s.current, s.workers[w].last);
    ReferencesChange(s.current, s.workers, w, now);
    assert References(s.current, s.workers)(s.current.value) > 0;
    RefExact(s.counters, References(s.current, s.workers), References(s.current, s.workers[w := now]), s.current.value);
  }

  lemma CurrentCounts(current: Option<Address>, workers: map<WorkerId, Worker>)
    ensures forall f: Address ::
      References(current, workers)(f) == References(None, workers)(f) + if current == Some(f) then 1 else 0
  {
  }

  lemma NotHeld(workers: map<WorkerId, Worker>, f: Address)
    requires forall w :: w in workers ==> workers[w].holds != Some(f)
    ensures References(None, workers)(f) == 0
  {
    assert Holders(workers, f) == {};
  }

  lemma PublishKeepsCounts(s: State, at: Address)
    requires Counted(s) && Enabled(s, Publish(at))
    ensures Defined(s, Publish(at)) && Counted(Apply(s, Publish(at)))
  {
    hide References, Exact;
    var before, without := References(s.current, s.workers), References(None, s.workers);
    var after := References(Some(at), s.workers);
    CurrentCounts(s.current, s.workers);
    CurrentCounts(Some(at), s.workers);
    NotHeld(s.workers, at);
    if s.current.Some? {
      UnrefExact(s.counters, before, without, s.current.value);
    } else {
      SameExact(s.counters, before, without);
    }
    NewExact(UnrefIf(s.counters, s.current), without, after, at);
  }

  /** The collector only ever gets frames that are neither current nor held. */
  lemma ReleaseKeepsCounts(s: State)
    requires Counted(s) && Enabled(s, Release)
    ensures Defined(s, Release) && Counted(Apply(s, Release))
    ensures var f := s.counters.garbage[0];
      s.current != Some(f) && forall w :: w in s.workers ==> s.workers[w].holds != Some(f)
  {
    var f := s.counters.garbage[0];
    CollectExact(s.counters, References(s.current, s.workers));
    forall w | w in s.workers ensures s.workers[w].holds != Some(f) {
      assert s.workers[w].holds == Some(f) ==> w in Holders(s.workers, f);
    }
  }

  lemma SamePlaces(s: State, s': State)
    requires Placed(s) && s'.free == s.free && s'.ready == s.ready && s'.images == s.images && s'.frames == s.frames
    ensures Placed(s')
  {
    assert forall i :: InFrame(s', i) <==> InFrame(s, i);
  }

  /** Moving the head of one list to the end of a disjoint one. */
  lemma MoveHead<T>(a: seq<T>, b: seq<T>)
    requires a != [] && NoDuplicates(a) && NoDuplicates(b) && forall x :: x in a ==> x !in b
    ensures NoDuplicates(a[1..]) && NoDuplicates(b + [a[0]])
    ensures forall x :: x in a <==> x == a[0] || x in a[1..]
    ensures a[0] !in a[1..]
    ensures forall x :: x in a[1..] ==> x !in b + [a[0]]
  {
    assert a == [a[0]] + a[1..] && a[0] in a;
    assert forall k :: 0 <= k < |a[1..]| ==> a[1..][k] == a[k + 1];
  }

  lemma AllocateKeepsPlaces(s: State)
    requires Placed(s) && Enabled(s, Allocate)
    ensures Placed(Apply(s, Allocate))
  {
    var s' := Apply(s, Allocate);
    assert forall i :: InFrame(s', i) <==> InFrame(s, i);
    assert !InFrame(s, s.images) && s.images !in s.free && s.images !in s.ready;
  }

  lemma CompleteKeepsPlaces(s: State)
    requires Placed(s) && Enabled(s, Complete)
    ensures Placed(Apply(s, Complete))
  {
    var s' := Apply(s, Complete);
    assert forall i :: InFrame(s', i) <==> InFrame(s, i);
    MoveHead(s.free, s.ready);
  }

  lemma PublishKeepsPlaces(s: State, at: Address)
    requires Placed(s) && Enabled(s, Publish(at)) && Defined(s, Publish(at))
    ensures Placed(Apply(s, Publish(at)))
  {
    var s', image := Apply(s, Publish(at)), s.ready[0];
    MoveHead(s.ready, []);
    assert forall f :: f in s.frames ==> f in s'.frames && s'.frames[f] == s.frames[f];
    assert image in s.ready;
    forall i: nat ensures i < s'.images <==> i in s'.free || i in s'.ready || InFrame(s', i) {
      assert InFrame(s, i) ==> InFrame(s', i);
      assert InFrame(s', i) ==> InFrame(s, i) || i == image;
      assert s'.frames[at] == image && InFrame(s', image);
    }
  }

  lemma ReleaseKeepsPlaces(s: State)
    requires Placed(s) && Enabled(s, Release) && Defined(s, Release)
    ensures Placed(Apply(s, Release))
    ensures var image := s.frames[s.counters.garbage[0]]; image !in s.free && image !in s.ready
  {
    var s', f := Apply(s, Release), s.counters.garbage[0];
    var image := s.frames[f];
    assert s'.free == s.free + [image];
    assert forall g :: g in s.frames && g != f ==> g in s'.frames && s'.frames[g] == s.frames[g];
    forall i: nat ensures i < s'.images <==> i in s'.free || i in s'.ready || InFrame(s', i) {
      assert InFrame(s, i) ==> InFrame(s', i) || i == image;
      assert InFrame(s', i) ==> InFrame(s, i);
      assert InFrame(s, image);
    }
  }

  /** Every step is safe and keeps the invariant; an image goes back to the decoder only from a
      frame that is neither current nor held, and while it is on neither of its lists. */
  lemma StepKeepsInv(s: State, step: Step)
    requires Inv(s) && Enabled(s, step)
    ensures Defined(s, step) && Inv(Apply(s, step))
    ensures step == Release ==>
      var f := s.counters.garbage[0];
      && s.frames[f] !in s.free && s.frames[f] !in s.ready
      && s.current != Some(f) && forall w :: w in s.workers ==> s.workers[w].holds != Some(f)
  {
    hide Placed, Exact;
    match step {
      case Allocate =>
        AllocateKeepsPlaces(s);
      case Complete =>
        CompleteKeepsPlaces(s);
      case Publish(at) =>
        PublishKeepsCounts(s, at);
        PublishKeepsPlaces(s, at);
      case Release =>
        ReleaseKeepsCounts(s);
        ReleaseKeepsPlaces(s);
      case Take(w) =>
        TakeKeepsCounts(s, w);
        SamePlaces(s, Apply(s, step));
      case _ =>
        LetGoKeepsCounts(s, step);
        SamePlaces(s, Apply(s, step));
    }
  }

  /** Counts as they were, apart from those of a and b. */
  ghost predicate SameCounts(c: Counters, c': Counters, apart: set<Address>) {
    forall f :: f !in apart ==> (f in c.count <==> f in c'.count) && (f in c.count ==> c'.count[f] == c.count[f])
  }

  ghost predicate SameImages(s: State, s': State) {
    s'.free == s.free && s'.ready == s.ready && s'.images == s.images
  }

  ghost predicate OtherWorkers(s: State, s': State, w: WorkerId) {
    s'.workers.Keys == s.workers.Keys && forall u :: u in s.workers && u != w ==> s'.workers[u] == s.workers[u]
  }

  /** A worker that takes a frame gets the current one and holds a further reference to it. */
  lemma TakeStep(s: State, w: WorkerId)
    requires Enabled(s, Take(w)) && Defined(s, Take(w))
    ensures var s', f := Apply(s, Take(w)), s.current.value;
      && s'.workers[w].holds == Some(f) == s'.current && s'.frames == s.frames
      && s'.counters.count[f] == s.counters.count[f] + 1 && SameCounts(s.counters, s'.counters, {f})
      && s'.counters.garbage == s.counters.garbage && OtherWorkers(s, s', w) && SameImages(s, s')
  {
  }

  /** One that drops a frame, or ends, gives its reference up and holds nothing. */
  lemma LetGoStep(s: State, step: Step)
    requires (step.Drop? || step.Exit?) && Enabled(s, step) && Defined(s, step)
    ensures var s', held := Apply(s, step), s.workers[step.w].holds;
      && s'.workers[step.w].holds == None && (step.Drop? ==> s'.workers[step.w].last == held)
      && s'.current == s.current && s'.frames == s.frames && OtherWorkers(s, s', step.w) && SameImages(s, s')
      && LostReference(s.counters, s'.counters, held)
  {
  }

  /** The object at an address lost a reference, and is garbage if it was the last; without an
      address nothing changed. */
  ghost predicate LostReference(c: Counters, c': Counters, a: Option<Address>) {
    if a == None then c' == c
    else
      && Live(c, a.value) && a.value in c'.count && c'.count[a.value] == c.count[a.value] - 1
      && SameCounts(c, c', {a.value})
      && c'.garbage == c.garbage + if c.count[a.value] == 1 then [a.value] else []
  }

  /** The decoder allocates an image when none is free, and fills the one at the head of its list. */
  lemma DecoderSteps(s: State)
    ensures s.free == [] ==>
      var s' := Apply(s, Allocate);
      s'.free == [s.images] && s'.images > s.images && s' == s.(free := s'.free, images := s'.images)
    ensures s.free != [] ==>
      var s' := Apply(s, Complete);
      && s.free == [s.free[0]] + s'.free && s'.ready == s.ready + [s.free[0]]
      && s' == s.(free := s'.free, ready := s'.ready)
  {
  }

  /** The producer publishes the oldest image as the newest frame; the frame it replaces loses a
      reference. */
  lemma PublishStep(s: State, at: Address)
    requires Counted(s) && Enabled(s, Publish(at)) && Defined(s, Publish(at))
    ensures var s' := Apply(s, Publish(at));
      && s'.current == Some(at) && s'.frames == s.frames[at := s.ready[0]] && s.ready == [s.ready[0]] + s'.ready
      && s'.free == s.free && s'.images == s.images && s'.workers == s.workers
      && at in s'.counters.count && s'.counters.count[at] == 1
      && exists c :: LostReference(s.counters, c, s.current) && SameCounts(c, s'.counters, {at})
                     && s'.counters.garbage == c.garbage
  {
    hide Exact, References;
    assert LostReference(s.counters, UnrefIf(s.counters, s.current), s.current);
  }

  /** The collector: the oldest garbage is gone and its image is free again. */
  lemma CollectorStep(s: State)
    requires Enabled(s, Release) && Defined(s, Release)
    ensures var s', f := Apply(s, Release), s.counters.garbage[0];
      && s'.frames == s.frames - {f} && s'.free == s.free + [s.frames[f]] && f !in s'.counters.count
      && s.counters.garbage == [f] + s'.counters.garbage && SameCounts(s.counters, s'.counters, {f})
      && s'.ready == s.ready && s'.images == s.images && s'.workers == s.workers && s'.current == s.current
  {
  }

  ghost predicate IsRun(states: seq<State>, steps: seq<Step>) {
    && |states| == |steps| + 1
    && forall i :: 0 <= i < |steps| ==>
         Enabled(states[i], steps[i]) && (Defined(states[i], steps[i]) ==> states[i + 1] == Apply(states[i], steps[i]))
  }

  lemma {:induction false} RunKeepsInv(states: seq<State>, steps: seq<Step>, workers: set<WorkerId>, i: nat)
    requires IsRun(states, steps) && states[0] == Initial(workers) && i < |states|
    ensures Inv(states[i])
  {
    if i == 0 {
      InitialInv(workers);
    } else {
      RunKeepsInv(states, steps, workers, i - 1);
      StepKeepsInv(states[i - 1], steps[i - 1]);
    }
  }

  /** Over every interleaving of producer, workers and collector: no step touches a frame that
      was released; each count is exactly the references there are, and a held frame's is not
      0; each image is in exactly one place; and it is returned to the decoder at most once for
      each time it was published, and never while a worker holds it. */
  lemma FramesConserved(states: seq<State>, steps: seq<Step>, workers: set<WorkerId>, i: nat)
    requires IsRun(states, steps) && states[0] == Initial(workers) && i < |steps|
    ensures var s := states[i];
      && Defined(s, steps[i])
      && Exact(s.counters, References(s.current, s.workers))
      && (forall w :: w in s.workers && s.workers[w].holds.Some? ==>
            s.workers[w].holds.value in s.frames && Live(s.counters, s.workers[w].holds.value))
      && Placed(s)
      && (steps[i] == Release ==>
            var f := s.counters.garbage[0];
            && s.frames[f] !in s.free && s.frames[f] !in s.ready
            && s.current != Some(f) && forall w :: w in s.workers ==> s.workers[w].holds != Some(f))
  {
    RunKeepsInv(states, steps, workers, i);
    StepKeepsInv(states[i], steps[i]);
    var s := states[i];
    forall w | w in s.workers && s.workers[w].holds.Some? ensures Live(s.counters, s.workers[w].holds.value) {
      assert w in Holders(s.workers, s.workers[w].holds.value);
    }
  }

  lemma CurrentIsFrame(s: State)
    requires Inv(s)
    ensures s.current.Some? ==> s.current.value in s.frames && s.current.value in s.counters.count
  {
  }

  /** What a worker was given stays with it until it lets go of it: the frame is allocated, has the
      image it had, and that image is on neither list of the decoder. */
  lemma {:induction false} HeldUntilDropped(states: seq<State>, steps: seq<Step>, workers: set<WorkerId>,
                                            w: WorkerId, i: nat, j: nat)
    requires IsRun(states, steps) && states[0] == Initial(workers) && i < j < |states| && steps[i] == Take(w)
    requires forall k :: i < k < j ==> steps[k] != Drop(w) && steps[k] != Exit(w)
    ensures Enabled(states[i], steps[i]) && states[i].current.Some?
    ensures var f := states[i].current.value;
      && w in states[j].workers && states[j].workers[w].holds == Some(f)
      && f in states[i].frames && f in states[j].frames && states[j].frames[f] == states[i].frames[f]
      && states[j].frames[f] !in states[j].free && states[j].frames[f] !in states[j].ready
  {
    var last: nat := j - 1;
    RunKeepsInv(states, steps, workers, last);
    RunKeepsInv(states, steps, workers, j);
    assert Enabled(states[last], steps[last]) && Enabled(states[i], steps[i]);
    StepKeepsInv(states[last], steps[last]);
    if last > i {
      HeldUntilDropped(states, steps, workers, w, i, last);
      HeldStays(states[last], steps[last], w);
    } else {
      TakeStep(states[i], w);
      CurrentIsFrame(states[i]);
    }
    var f := states[i].current.value;
    assert f in states[j].frames;
  }

  /** A frame that is held stays held in every step but its holder's own. */
  lemma HeldStays(s: State, step: Step, w: WorkerId)
    requires Inv(s) && Enabled(s, step) && Defined(s, step) && step != Drop(w) && step != Exit(w)
    requires w in s.workers && s.workers[w].holds.Some?
    ensures var s', f := Apply(s, step), s.workers[w].holds.value;
      && w in s'.workers && s'.workers[w].holds == Some(f)
      && f in s.frames && f in s'.frames && s'.frames[f] == s.frames[f]
  {
    hide Apply, Exact, Placed, SameCounts, LostReference;
    match step {
      case Release =>
        ReleaseKeepsCounts(s);
        CollectorStep(s);
      case Take(v) => TakeStep(s, v);
      case Publish(at) => PublishStep(s, at);
      case Allocate => DecoderSteps(s);
      case Complete => DecoderSteps(s);
      case _ => LetGoStep(s, step);
    }
  }

  /** The first i ready images were published, at the first i addresses. */
  ghost predicate PublishedUpTo(was: map<Address, ImageId>, now: map<Address, ImageId>, addresses: seq<Address>,
                                ready: seq<ImageId>, i: nat) {
    && i <= |addresses| == |ready| && now.Keys == was.Keys + (set a | a in addresses[..i])
    && forall k :: 0 <= k < i ==> addresses[k] in now && now[addresses[k]] == ready[k]
  }

  lemma NonePublished(was: map<Address, ImageId>, addresses: seq<Address>, ready: seq<ImageId>)
    requires |addresses| == |ready|
    ensures PublishedUpTo(was, was, addresses, ready, 0)
  {
  }

  lemma AddressIsNew(was: map<Address, ImageId>, now: map<Address, ImageId>, addresses: seq<Address>,
                     ready: seq<ImageId>, i: nat)
    requires PublishedUpTo(was, now, addresses, ready, i) && i < |addresses| && NoDuplicates(addresses)
    requires forall a :: a in addresses ==> a !in was
    ensures addresses[i] !in now
  {
    assert addresses[i] in addresses && addresses[i] !in addresses[..i];
  }

  lemma OneMorePublished(was: map<Address, ImageId>, now: map<Address, ImageId>, next: map<Address, ImageId>,
                         addresses: seq<Address>, ready: seq<ImageId>, i: nat, j: nat)
    requires PublishedUpTo(was, now, addresses, ready, i) && i < |addresses| && j == i + 1 && addresses[i] !in now
    requires next == now[addresses[i] := ready[i]]
    ensures PublishedUpTo(was, next, addresses, ready, j)
  {
    assert addresses[..j] == addresses[..i] + [addresses[i]];
  }

  lemma AllPublished(was: map<Address, ImageId>, now: map<Address, ImageId>, addresses: seq<Address>,
                     ready: seq<ImageId>)
    requires PublishedUpTo(was, now, addresses, ready, |addresses|)
    ensures now.Keys == was.Keys + (set a | a in addresses)
    ensures forall k :: 0 <= k < |addresses| ==> addresses[k] in now && now[addresses[k]] == ready[k]
  {
    assert addresses[..|addresses|] == addresses;
  }

  /** The state of one source, updated in place by the regions above. */
  class Source {
    var freeFrames: seq<ImageId>
    var readyFrames: seq<ImageId>
    var images: nat
    var currentFrame: Option<Address>
    var frames: map<Address, ImageId>
    var refCount: map<Address, nat>
    var garbageQueue: seq<Address>
    var workers: map<WorkerId, Worker>

    ghost function View(): State
      reads this
    {
      State(freeFrames, readyFrames, images, currentFrame, frames, Counters(refCount, garbageQueue), workers)
    }

    constructor (workers: set<WorkerId>)
      ensures View() == Initial(workers) && Inv(View())
    {
      freeFrames, readyFrames, images, currentFrame := [], [], 0, None;
      frames, refCount, garbageQueue := map[], map[], [];
      this.workers := map w | w in workers :: Worker(None, None);
    }

    /** SVR_RefCounter_unref. */
    method UnrefFrame(f: Address)
      requires Live(Counters(refCount, garbageQueue), f)
      modifies this`refCount, this`garbageQueue
      ensures Counters(refCount, garbageQueue) == Unref(old(Counters(refCount, garbageQueue)), f)
    {
      refCount := refCount[f := refCount[f] - 1];
      if refCount[f] == 0 {
        garbageQueue := garbageQueue + [f];
      }
    }

    /** One round of provideData's loop: publishes the oldest ready image. */
    method PublishFrame(at: Address)
      requires Inv(View()) && Enabled(View(), Publish(at))
      modifies this
      ensures Inv(View()) && Defined(old(View()), Publish(at)) && View() == Apply(old(View()), Publish(at))
      ensures frames == old(frames)[at := old(readyFrames[0])] && readyFrames == old(readyFrames[1..])
      ensures currentFrame == Some(at) && freeFrames == old(freeFrames) && workers == old(workers)
      ensures at in refCount && refCount[at] == 1
      ensures old(currentFrame).Some? ==>
        var f := old(currentFrame).value; f in refCount && f in old(refCount) && refCount[f] == old(refCount)[f] - 1
    {
      hide Inv;
      StepKeepsInv(View(), Publish(at));
      CurrentIsFrame(View());
      var frame := readyFrames[0];
      readyFrames := readyFrames[1..];
      if currentFrame.Some? {
        UnrefFrame(currentFrame.value);
      }
      frames, refCount := frames[at := frame], refCount[at := 1];
      currentFrame := Some(at);
    }

    /** provideData, after decoding: publishes every ready image in turn, at the addresses the
        block allocator gives. In the end the newest is current; the workers keep theirs. */
    method PublishAll(addresses: seq<Address>)
      requires Inv(View()) && |addresses| == |readyFrames| && NoDuplicates(addresses)
      requires forall a :: a in addresses ==> a !in frames
      modifies this
      ensures Inv(View()) && readyFrames == [] && freeFrames == old(freeFrames) && workers == old(workers)
      ensures frames.Keys == old(frames.Keys) + (set a | a in addresses)
      ensures addresses != [] ==>
        && currentFrame == Some(addresses[|addresses| - 1])
        && frames[currentFrame.value] == old(readyFrames[|readyFrames| - 1])
      ensures forall k :: 0 <= k < |addresses| ==> addresses[k] in frames && frames[addresses[k]] == old(readyFrames)[k]
      ensures addresses == [] ==> View() == old(View())
    {
      hide Inv, Apply, Defined, PublishedUpTo, NoDuplicates;
      var i := 0;
      ghost var was, ready := frames, readyFrames;
      NonePublished(was, addresses, ready);
      while |readyFrames| > 0
        invariant 0 <= i <= |addresses| && readyFrames == ready[i..]
        invariant Inv(View()) && freeFrames == old(freeFrames) && workers == old(workers)
        invariant PublishedUpTo(was, frames, addresses, ready, i)
        invariant if i == 0 then View() == old(View()) else currentFrame == Some(addresses[i - 1])
        decreases |readyFrames|
      {
        ghost var before, from := frames, i;
        AddressIsNew(was, before, addresses, ready, from);
        PublishFrame(addresses[i]);
        i := i + 1;
        OneMorePublished(was, before, frames, addresses, ready, from, i);
      }
      AllPublished(was, frames, addresses, ready);
    }

    /** getFrame without the waiting: releases the worker's last frame and, if the current frame
        is at another address, references and returns that. */
    method GetFrame(w: WorkerId) returns (frame: Option<Address>)
      requires Inv(View()) && w in workers
      modifies this
      ensures Inv(View()) && Defined(old(View()), Drop(w))
      ensures var dropped := Apply(old(View()), Drop(w));
        if dropped.current.Some? && dropped.current != old(workers[w].holds)
        then frame == dropped.current && Enabled(dropped, Take(w)) && Defined(dropped, Take(w))
             && View() == Apply(dropped, Take(w))
        else frame == None && View() == dropped
      ensures frame == if currentFrame == old(workers[w].holds) then None else currentFrame
      ensures workers == old(workers)[w := Worker(frame, old(workers[w].holds))]
      ensures currentFrame == old(currentFrame) && frames == old(frames) && freeFrames == old(freeFrames)
      ensures readyFrames == old(readyFrames)
      ensures frame.Some? ==>
        && frame.value in frames && frame.value in refCount && frame.value in old(refCount)
        && refCount[frame.value] == old(refCount)[frame.value] + 1
      ensures old(workers[w].holds).Some? ==>
        var f := old(workers[w].holds).value; f in refCount && f in old(refCount) && refCount[f] == old(refCount)[f] - 1
    {
      hide Inv;
      CurrentIsFrame(View());
      var last := workers[w].holds;
      StepKeepsInv(View(), Drop(w));
      if last.Some? {
        UnrefFrame(last.value);
      }
      workers := workers[w := Worker(None, last)];
      assert View() == Apply(old(View()), Drop(w));
      frame := None;
      if currentFrame.Some? && currentFrame != last {
        StepKeepsInv(View(), Take(w));
        frame := currentFrame;
        refCount := refCount[frame.value := refCount[frame.value] + 1];
        workers := workers[w := Worker(frame, last)];
      }
    }

    /** releaseSourceFrame, run by the collector. */
    method ReleaseSourceFrame()
      requires Inv(View()) && garbageQueue != []
      modifies this
      ensures Inv(View()) && Defined(old(View()), Release) && View() == Apply(old(View()), Release)
      ensures var f := old(garbageQueue[0]);
        && f in old(frames) && freeFrames == old(freeFrames) + [old(frames)[f]] && frames == old(frames) - {f}
        && refCount == old(refCount) - {f} && garbageQueue == old(garbageQueue[1..])
        && readyFrames == old(readyFrames) && currentFrame == old(currentFrame) && workers == old(workers)
    {
      hide Inv;
      StepKeepsInv(View(), Release);
      var f := garbageQueue[0];
      garbageQueue := garbageQueue[1..];
      freeFrames := freeFrames + [frames[f]];
      frames, refCount := frames - {f}, refCount - {f};
    }
  }
}
