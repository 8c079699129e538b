module RuntimeProtocol {
  // The Git-runtime probe protocol: selecting an executable, claiming a probe, publishing its
  // result and releasing the claim, in any interleaving over any number of outstanding requests.

  import opened Wrappers

  datatype Preference = SystemPath | Custom(path: string)

  datatype Availability = Checking | Available(versionOutput: string) | Unavailable(detail: string)

  /** What a probe can find out. */
  type Outcome = a: Availability | a != Checking witness Unavailable("")

  datatype RuntimeState = RuntimeState(preference: Preference, availability: Availability)

  /** The shared slot.  `token` numbers the cancellation token it currently hands out, and
      `probedBefore` says whether a probe was begun since the last change of preference. */
  datatype Slot = Slot(state: RuntimeState, generation: nat, probing: bool, probedBefore: bool, token: nat)

  /** A request: frozen preference and generation, and the token it was given. */
  datatype Request = Request(preference: Preference, generation: nat, token: nat)

  // ----- the four critical sections -----

  function SelectSlot(s: Slot, preference: Preference): Slot {
    if s.state.preference == preference then s
    else Slot(RuntimeState(preference, Checking), s.generation + 1, false, false, s.token + 1)
  }

  predicate Refused(s: Slot, force: bool, recent: bool) {
    s.probing || (!force && (s.state.availability.Available? || (s.probedBefore && recent)))
  }

  function BeginSlot(s: Slot, force: bool, recent: bool): (Slot, Option<Request>) {
    if Refused(s, force, recent) then (s, None)
    else
      (s.(probing := true, generation := s.generation + 1, probedBefore := true),
       Some(Request(s.state.preference, s.generation + 1, s.token)))
  }

  function PublishSlot(s: Slot, r: Request, isCancelled: bool, found: Outcome): (Slot, Option<RuntimeState>) {
    if isCancelled || s.generation != r.generation then (s, None)
    else
      var next := RuntimeState(r.preference, found);
      (s.(state := next, probing := false), Some(next))
  }

  function ReleaseSlot(s: Slot, r: Request): Slot {
    if s.generation == r.generation then s.(probing := false) else s
  }

  // ----- the world: the slot, the tokens, and everything outstanding -----

  datatype Phase = Issued | Ran

  datatype Live = Live(request: Request, phase: Phase)

  /** Besides the real state the world remembers the generation at which the preference last changed. */
  datatype World = World(slot: Slot, cancelled: set<nat>, live: map<nat, Live>, nextId: nat, changedAt: nat)

  datatype Step =
    | Select(preference: Preference)
    | Begin(force: bool, recent: bool)
    | Run(id: nat, found: Outcome)
    | Drop(id: nat)

  const Start: World := World(Slot(RuntimeState(SystemPath, Checking), 0, false, false, 0), {}, map[], 0, 0)

  /** One atomic step.  A request is run at most once and ends by being dropped, run or not. */
  function Next(w: World, step: Step): World {
    match step
    case Select(preference) =>
      if w.slot.state.preference == preference then w
      else
        var slot := SelectSlot(w.slot, preference);
        w.(slot := slot, cancelled := w.cancelled + {w.slot.token}, changedAt := slot.generation)
    case Begin(force, recent) =>
      var (slot, request) := BeginSlot(w.slot, force, recent);
      if request.None? then w
      else w.(slot := slot, live := w.live[w.nextId := Live(request.value, Issued)], nextId := w.nextId + 1)
    case Run(id, found) =>
      if id !in w.live || w.live[id].phase.Ran? then w
      else
        var r := w.live[id].request;
        w.(slot := PublishSlot(w.slot, r, r.token in w.cancelled, found).0, live := w.live[id := Live(r, Ran)])
    case Drop(id) =>
      if id !in w.live then w
      else w.(slot := ReleaseSlot(w.slot, w.live[id].request), live := w.live - {id})
  }

  ghost function After(steps: seq<Step>): World {
    if steps == [] then Start else Next(After(steps[..|steps| - 1]), steps[|steps| - 1])
  }

  // ----- the invariant -----

  /** A request with the slot's generation that has not run holds the claim. */
  ghost predicate Holds(w: World, id: nat) {
    id in w.live && w.live[id].phase.Issued? && w.live[id].request.generation == w.slot.generation
  }

  ghost predicate RequestOk(w: World, id: nat)
    requires id in w.live
  {
    var r := w.live[id].request;
    && id < w.nextId
    && 1 <= r.generation <= w.slot.generation && r.token <= w.slot.token
    && (r.token == w.slot.token ==> r.preference == w.slot.state.preference && r.generation > w.changedAt)
    && (r.token < w.slot.token ==> r.generation < w.changedAt)
    && (r.generation == w.slot.generation ==> (w.live[id].phase.Issued? <==> w.slot.probing))
  }

  ghost predicate Inv(w: World) {
    && (forall t: nat :: t in w.cancelled <==> t < w.slot.token)
    && w.changedAt <= w.slot.generation
    && (forall id :: id in w.live ==> RequestOk(w, id))
    && (forall x, y :: x in w.live && y in w.live && x != y ==>
          w.live[x].request.generation != w.live[y].request.generation)
    && (w.slot.probing ==> exists id :: Holds(w, id))
  }

  lemma SelectKeepsInv(w: World, preference: Preference)
    requires Inv(w)
    ensures Inv(Next(w, Select(preference)))
  {
    var w' := Next(w, Select(preference));
    forall id | id in w'.live
      ensures RequestOk(w', id)
    {
      assert RequestOk(w, id);
    }
  }

  lemma FreshId(w: World)
    requires Inv(w)
    ensures forall id :: id in w.live ==> id < w.nextId
  {
    forall id | id in w.live
      ensures id < w.nextId
    {
      assert RequestOk(w, id);
    }
  }

  lemma BeginKeepsInv(w: World, force: bool, recent: bool)
    requires Inv(w)
    ensures Inv(Next(w, Begin(force, recent)))
  {
    var w' := Next(w, Begin(force, recent));
    if !Refused(w.slot, force, recent) {
      FreshId(w);
      forall id | id in w'.live
        ensures RequestOk(w', id)
        ensures id != w.nextId ==> w'.live[id].request.generation < w'.slot.generation
      {
        assert id != w.nextId ==> RequestOk(w, id);
      }
      assert Holds(w', w.nextId);
    }
  }

  lemma RunKeepsInv(w: World, id: nat, found: Outcome)
    requires Inv(w)
    ensures Inv(Next(w, Run(id, found)))
  {
    var w' := Next(w, Run(id, found));
    if id in w.live && w.live[id].phase.Issued? {
      assert RequestOk(w, id);
      forall x | x in w'.live
        ensures RequestOk(w', x)
      {
        assert RequestOk(w, x);
      }
      if w'.slot.probing {
        var holder :| Holds(w, holder);
        assert RequestOk(w, holder);
        assert Holds(w', holder);
      }
    }
  }

  lemma DropKeepsInv(w: World, id: nat)
    requires Inv(w)
    ensures Inv(Next(w, Drop(id)))
  {
    var w' := Next(w, Drop(id));
    if id in w.live {
      assert RequestOk(w, id);
      forall x | x in w'.live
        ensures RequestOk(w', x)
      {
        assert RequestOk(w, x);
      }
      if w'.slot.probing {
        var holder :| Holds(w, holder);
        assert Holds(w', holder);
      }
    }
  }

  lemma StepKeepsInv(w: World, step: Step)
    requires Inv(w)
    ensures Inv(Next(w, step))
  {
    hide Inv, Next;
    match step {
      case Select(preference) => SelectKeepsInv(w, preference);
      case Begin(force, recent) => BeginKeepsInv(w, force, recent);
      case Run(id, found) => RunKeepsInv(w, id, found);
      case Drop(id) => DropKeepsInv(w, id);
    }
  }

  lemma StartInv()
    ensures Inv(Start)
  {
  }

  /** Every reachable world satisfies the invariant, whatever the interleaving. */
  lemma {:induction false} RunsKeepInv(steps: seq<Step>)
    ensures Inv(After(steps))
  {
    hide Inv, Next;
    if steps == [] {
      StartInv();
    } else {
      RunsKeepInv(steps[..|steps| - 1]);
      StepKeepsInv(After(steps[..|steps| - 1]), steps[|steps| - 1]);
    }
  }

  // ----- what it gives -----

  /** At most one outstanding request holds the claim, and when the claim is set exactly one does. */
  lemma OneClaim(steps: seq<Step>)
    ensures var w := After(steps);
            && (forall x, y :: Holds(w, x) && Holds(w, y) ==> x == y)
            && (w.slot.probing ==> exists id :: Holds(w, id))
  {
    RunsKeepInv(steps);
    hide After, RequestOk;
  }

  /** Step `i` of the run issued the request numbered `id`. */
  ghost predicate IssuedAt(steps: seq<Step>, i: nat, id: nat) {
    && i < |steps| && steps[i].Begin?
    && var before := After(steps[..i]);
    && before.nextId == id && !Refused(before.slot, steps[i].force, steps[i].recent)
  }

  /** The recorded preference has been `p` ever since the first `i` steps were done. */
  ghost predicate PreferredSince(steps: seq<Step>, i: nat, p: Preference) {
    forall k :: i <= k <= |steps| ==> After(steps[..k]).slot.state.preference == p
  }

  lemma ExtendRun(steps: seq<Step>, i: nat, id: nat, p: Preference)
    requires 0 < |steps|
    requires IssuedAt(steps[..|steps| - 1], i, id) && PreferredSince(steps[..|steps| - 1], i, p)
    requires After(steps).slot.state.preference == p
    ensures IssuedAt(steps, i, id) && PreferredSince(steps, i, p)
  {
    hide After, Next, Refused;
    var before := steps[..|steps| - 1];
    assert before[..i] == steps[..i];
    forall k | i <= k <= |steps|
      ensures After(steps[..k]).slot.state.preference == p
    {
      if k < |steps| {
        assert steps[..k] == before[..k];
      } else {
        assert steps[..k] == steps;
      }
    }
  }

  /** A live request with the current token was issued under the current preference, unchanged since. */
  lemma {:induction false} IssuedUnderCurrent(steps: seq<Step>, id: nat) returns (i: nat)
    requires var w := After(steps); id in w.live && w.live[id].request.token == w.slot.token
    ensures IssuedAt(steps, i, id) && PreferredSince(steps, i, After(steps).slot.state.preference)
  {
    hide *;
    StartIsBlank(steps);
    var before, last := steps[..|steps| - 1], steps[|steps| - 1];
    var w := After(before);
    RunsKeepInv(before);
    LastStep(steps);
    CurrentTokenOrigin(w, last, id);
    if id in w.live {
      i := IssuedUnderCurrent(before, id);
      ExtendRun(steps, i, id, w.slot.state.preference);
    } else {
      i := |before|;
      JustIssued(steps, id);
    }
  }

  lemma StartIsBlank(steps: seq<Step>)
    ensures steps == [] ==> After(steps).live == map[] && After(steps).slot.state.availability == Checking
  {
  }

  lemma LastStep(steps: seq<Step>)
    requires 0 < |steps|
    ensures After(steps) == Next(After(steps[..|steps| - 1]), steps[|steps| - 1])
  {
  }

  /** A request with the current token either had it before the step or is being issued by it. */
  lemma CurrentTokenOrigin(w: World, step: Step, id: nat)
    requires Inv(w)
    requires var after := Next(w, step); id in after.live && after.live[id].request.token == after.slot.token
    ensures if id in w.live
            then w.live[id].request.token == w.slot.token
                 && Next(w, step).slot.state.preference == w.slot.state.preference
            else step.Begin? && id == w.nextId
  {
    TokensBelow(w);
    FreshId(w);
    hide Inv, RequestOk;
  }

  lemma TokensBelow(w: World)
    requires Inv(w)
    ensures forall id :: id in w.live ==> w.live[id].request.token <= w.slot.token
    ensures forall id :: id in w.live && w.live[id].request.generation == w.slot.generation ==>
              w.live[id].request.token == w.slot.token
  {
    forall id | id in w.live
      ensures w.live[id].request.token <= w.slot.token
      ensures w.live[id].request.generation == w.slot.generation ==> w.live[id].request.token == w.slot.token
    {
      assert RequestOk(w, id);
    }
  }

  lemma JustIssued(steps: seq<Step>, id: nat)
    requires 0 < |steps| && steps[|steps| - 1].Begin?
    requires var w := After(steps[..|steps| - 1]); id == w.nextId && id !in w.live && id in After(steps).live
    ensures IssuedAt(steps, |steps| - 1, id) && PreferredSince(steps, |steps| - 1, After(steps).slot.state.preference)
  {
    hide After;
    LastStep(steps);
    assert steps[..|steps|] == steps;
    BeginKeeps(After(steps[..|steps| - 1]), steps[|steps| - 1], id);
  }

  /** A request that is there after a begin was issued by it, and the preference is as before. */
  lemma BeginKeeps(w: World, step: Step, id: nat)
    requires step.Begin? && id == w.nextId && id !in w.live && id in Next(w, step).live
    ensures !Refused(w.slot, step.force, step.recent) && Next(w, step).slot.state.preference == w.slot.state.preference
  {
    hide Refused;
  }

  /** Step `j` ran the request numbered `id` and found `a`. */
  ghost predicate FoundAt(steps: seq<Step>, j: nat, id: nat, a: Availability) {
    j < |steps| && steps[j].Run? && steps[j].id == id && steps[j].found == a
  }

  ghost predicate Publishes(w: World, step: Step) {
    step.Run? && Holds(w, step.id) && w.live[step.id].request.token == w.slot.token
  }

  /** Only a publishing run records an availability, and it leaves the preference alone. */
  lemma RecordedByRuns(w: World, step: Step)
    requires Inv(w) && Next(w, step).slot.state.availability != Checking
    ensures if Publishes(w, step) then Next(w, step).slot.state == RuntimeState(w.slot.state.preference, step.found)
            else Next(w, step).slot.state == w.slot.state
  {
    if step.Run? && step.id in w.live {
      assert RequestOk(w, step.id);
    }
  }

  /** A recorded availability was found by running a request begun, for the recorded preference,
      after that preference was last selected: the two steps of the run are produced. */
  lemma {:induction false} RecordedIsCurrent(steps: seq<Step>) returns (i: nat, j: nat, id: nat)
    requires After(steps).slot.state.availability != Checking
    ensures i < j && IssuedAt(steps, i, id)
    ensures FoundAt(steps, j, id, After(steps).slot.state.availability)
    ensures PreferredSince(steps, i, After(steps).slot.state.preference)
  {
    hide After, Next, Inv, IssuedAt, PreferredSince, Refused, SelectSlot;
    StartIsBlank(steps);
    var before, last := steps[..|steps| - 1], steps[|steps| - 1];
    var w := After(before);
    RunsKeepInv(before);
    LastStep(steps);
    RecordedByRuns(w, last);
    if Publishes(w, last) {
      j, id := |before|, last.id;
      i := IssuedUnderCurrent(before, id);
      IssuedIsBefore(before, i, id);
    } else {
      i, j, id := RecordedIsCurrent(before);
    }
    ExtendRun(steps, i, id, w.slot.state.preference);
  }

  lemma IssuedIsBefore(steps: seq<Step>, i: nat, id: nat)
    requires IssuedAt(steps, i, id)
    ensures i < |steps|
  {
  }

  /** A request that has been superseded changes nothing in the slot, run or dropped. */
  lemma SupersededIsHarmless(steps: seq<Step>, id: nat, found: Outcome)
    requires var w := After(steps); id in w.live && w.live[id].request.generation != w.slot.generation
    ensures var w := After(steps);
            && Next(w, Run(id, found)).slot == w.slot && Next(w, Drop(id)).slot == w.slot
  {
    hide After;
  }

  /** Selecting another executable supersedes every request there is, and frees the claim at once. */
  lemma SelectSupersedes(steps: seq<Step>, preference: Preference)
    requires After(steps).slot.state.preference != preference
    ensures var w := Next(After(steps), Select(preference));
            && !w.slot.probing && w.slot.state == RuntimeState(preference, Checking)
            && forall id :: id in w.live ==>
                 w.live[id].request.generation != w.slot.generation && w.live[id].request.token in w.cancelled
  {
    RunsKeepInv(steps);
    var w := After(steps);
    hide After;
    forall id | id in w.live
      ensures w.live[id].request.generation < w.slot.generation + 1 && w.live[id].request.token <= w.slot.token
    {
      assert RequestOk(w, id);
    }
  }

  /** A set claim is always cleared by its holder: by running it, and also by dropping it unrun. */
  lemma HolderReleases(steps: seq<Step>, id: nat, found: Outcome)
    requires Holds(After(steps), id)
    ensures var w := After(steps);
            && !Next(w, Run(id, found)).slot.probing
            && Next(w, Run(id, found)).slot.state == RuntimeState(w.slot.state.preference, found)
            && !Next(w, Drop(id)).slot.probing && Next(w, Drop(id)).slot.state == w.slot.state
  {
    RunsKeepInv(steps);
    var w := After(steps);
    hide After;
    assert RequestOk(w, id);
  }

  /** So the claim cannot be lost: with nothing outstanding it is free, and a forced probe starts. */
  lemma ClaimNotLost(steps: seq<Step>, recent: bool)
    requires After(steps).live == map[]
    ensures !After(steps).slot.probing
    ensures BeginSlot(After(steps).slot, true, recent).1.Some?
  {
    RunsKeepInv(steps);
    hide After;
  }

  /** The cancellation check in `run` never decides: a cancelled request is always superseded too. */
  lemma CancelledIsSuperseded(steps: seq<Step>, id: nat)
    requires var w := After(steps); id in w.live && w.live[id].request.token in w.cancelled
    ensures After(steps).live[id].request.generation != After(steps).slot.generation
  {
    RunsKeepInv(steps);
    var w := After(steps);
    hide After;
    assert RequestOk(w, id);
  }

  // ----- when an unforced probe starts -----

  /** Step `i` of the run issued a request. */
  ghost predicate Began(steps: seq<Step>, i: nat)
    requires i < |steps|
  {
    After(steps[..i + 1]).nextId == After(steps[..i]).nextId + 1
  }

  ghost predicate ChangesPreference(steps: seq<Step>, k: nat)
    requires k < |steps|
  {
    After(steps[..k + 1]).slot.state.preference != After(steps[..k]).slot.state.preference
  }

  /** It did so since the preference was last changed. */
  ghost predicate BeganSinceChange(steps: seq<Step>, i: nat) {
    i < |steps| && Began(steps, i) && forall k: nat :: i < k < |steps| ==> !ChangesPreference(steps, k)
  }

  lemma StepTo(steps: seq<Step>, k: nat)
    requires k < |steps|
    ensures After(steps[..k + 1]) == Next(After(steps[..k]), steps[k])
  {
    hide Next;
    assert steps[..k + 1][..k] == steps[..k];
  }

  lemma SameBefore(steps: seq<Step>, longer: seq<Step>, i: nat)
    requires i < |steps| && steps <= longer
    ensures Began(longer, i) <==> Began(steps, i)
    ensures ChangesPreference(longer, i) <==> ChangesPreference(steps, i)
  {
    assert longer[..i] == steps[..i] && longer[..i + 1] == steps[..i + 1];
  }

  /** What the last step does to the requests begun before. */
  lemma BeganLonger(steps: seq<Step>, i: nat)
    requires 0 < |steps| && i < |steps| - 1
    ensures BeganSinceChange(steps, i) <==>
            BeganSinceChange(steps[..|steps| - 1], i) && !ChangesPreference(steps, |steps| - 1)
  {
    hide Began, ChangesPreference;
    var before := steps[..|steps| - 1];
    SameBefore(before, steps, i);
    forall k: nat | k < |before|
      ensures ChangesPreference(steps, k) <==> ChangesPreference(before, k)
    {
      SameBefore(before, steps, k);
    }
  }

  /** How one step changes whether a probe was begun. */
  lemma ProbedStep(w: World, step: Step)
    requires Inv(w)
    ensures var after := Next(w, step);
            && (after.slot.probedBefore <==>
                  || after.nextId == w.nextId + 1
                  || (w.slot.probedBefore && after.slot.state.preference == w.slot.state.preference))
            && (after.nextId == w.nextId + 1 ==> after.slot.state.preference == w.slot.state.preference)
  {
    if step.Run? && step.id in w.live {
      assert RequestOk(w, step.id);
    }
  }

  ghost predicate SomeBegan(steps: seq<Step>) {
    exists i: nat :: BeganSinceChange(steps, i)
  }

  lemma SomeBeganNext(steps: seq<Step>)
    requires 0 < |steps|
    ensures var n := |steps| - 1;
            SomeBegan(steps) <==>
            (Began(steps, n) || (SomeBegan(steps[..n]) && !ChangesPreference(steps, n)))
  {
    hide Began, ChangesPreference;
    var n := |steps| - 1;
    if Began(steps, n) {
      assert BeganSinceChange(steps, n);
    }
    if SomeBegan(steps[..n]) && !ChangesPreference(steps, n) {
      var i: nat :| BeganSinceChange(steps[..n], i);
      BeganLonger(steps, i);
    }
    if SomeBegan(steps) {
      var i: nat :| BeganSinceChange(steps, i);
      if i < n {
        BeganLonger(steps, i);
      }
    }
  }

  /** The slot remembers exactly whether a probe was begun since the last change of preference. */
  lemma {:induction false} ProbedMeansBegan(steps: seq<Step>)
    ensures After(steps).slot.probedBefore <==> SomeBegan(steps)
  {
    hide Next, SomeBegan, Inv;
    if steps == [] {
      NothingBegan();
    } else {
      var n := |steps| - 1;
      ProbedMeansBegan(steps[..n]);
      RunsKeepInv(steps[..n]);
      ProbedStep(After(steps[..n]), steps[n]);
      SomeBeganNext(steps);
      assert steps[..n + 1] == steps;
    }
  }

  lemma NothingBegan()
    ensures !SomeBegan([]) && !After([]).slot.probedBefore
  {
  }

  /** With the times of the steps: a probe begun since the last change of preference is less than ten
      seconds old. */
  ghost predicate RecentlyBegan(steps: seq<Step>, times: seq<nat>, now: nat)
    requires |times| == |steps|
  {
    exists i: nat :: BeganSinceChange(steps, i) && now - times[i] < 10
  }

  /** From every reachable state an unforced begin issues a request if and only if no request holds the
      claim, the recorded availability is not a healthy one, and no probe begun since the last change
      of preference is recent. */
  lemma UnforcedBegin(steps: seq<Step>, times: seq<nat>, now: nat)
    requires |times| == |steps|
    ensures var w, after := After(steps), Next(After(steps), Begin(false, RecentlyBegan(steps, times, now)));
            && (after.nextId == w.nextId + 1 <==>
                  && (forall id :: !Holds(w, id))
                  && !w.slot.state.availability.Available?
                  && forall i: nat :: BeganSinceChange(steps, i) ==> now - times[i] >= 10)
            && (after.nextId != w.nextId + 1 ==> after == w)
  {
    hide After, BeganSinceChange;
    var w := After(steps);
    RunsKeepInv(steps);
    ProbedMeansBegan(steps);
    ClaimIsHeld(w);
    hide Inv, Holds;
  }

  /** The claim is set exactly while a request holds it. */
  lemma ClaimIsHeld(w: World)
    requires Inv(w)
    ensures w.slot.probing <==> exists id :: Holds(w, id)
  {
    if id :| Holds(w, id) {
      assert RequestOk(w, id);
    }
  }

  /** An unforced begin leaves a healthy slot, and all the world, as it is. */
  lemma HealthyIsLeftAlone(w: World, recent: bool)
    requires w.slot.state.availability.Available?
    ensures Next(w, Begin(false, recent)) == w
  {
  }

  /** After a failed probe, with nothing outstanding, an unforced begin starts another one as soon as the
      last is not recent, for the selected executable; until then it does nothing. */
  lemma FailedIsRetried(steps: seq<Step>, recent: bool)
    requires var w := After(steps); w.live == map[] && w.slot.state.availability.Unavailable? && SomeBegan(steps)
    ensures var w := After(steps);
            var after := Next(w, Begin(false, recent));
            if recent then after == w
            else
              && w.nextId in after.live && after.slot.probing && after.nextId == w.nextId + 1
              && after.live[w.nextId] ==
                 Live(Request(w.slot.state.preference, w.slot.generation + 1, w.slot.token), Issued)
  {
    RunsKeepInv(steps);
    ProbedMeansBegan(steps);
    ClaimIsHeld(After(steps));
    hide After, SomeBegan, Inv;
  }

  /** A forced begin issues a request exactly when none holds the claim. */
  lemma ForcedBegin(steps: seq<Step>, recent: bool)
    ensures var w, after := After(steps), Next(After(steps), Begin(true, recent));
            && (after.nextId == w.nextId + 1 <==> forall id :: !Holds(w, id))
            && (after.nextId != w.nextId + 1 ==> after == w)
  {
    RunsKeepInv(steps);
    ClaimIsHeld(After(steps));
    hide After, Inv, Holds;
  }

  /** Selecting the executable that is selected changes nothing. */
  lemma SelectedAgain(w: World)
    ensures Next(w, Select(w.slot.state.preference)) == w
  {
  }
}
