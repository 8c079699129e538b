/** The shared slot as it is updated in place.  Every method is one critical section and is proved to
    be the corresponding step of `RuntimeProtocol` on the slot's abstract value. */
module RuntimeSlots {
  import opened Wrappers
  import opened RuntimeProtocol

  /** Unforced probes are at least this many seconds apart. */
  const RETRY_SECONDS: nat := 10

  class CancellationToken {
    var cancelled: bool

    constructor ()
      ensures !cancelled
    {
      cancelled := false;
    }

    method Cancel()
      modifies this
      ensures cancelled
    {
      cancelled := true;
    }
  }

  class GitRuntimeProbe {
    const preference: Preference
    const generation: nat
    const cancellation: CancellationToken
    ghost const token: nat

    constructor (preference: Preference, generation: nat, cancellation: CancellationToken, ghost token: nat)
      ensures AsRequest() == Request(preference, generation, token) && this.cancellation == cancellation
    {
      this.preference, this.generation, this.cancellation := preference, generation, cancellation;
      this.token := token;
    }

    ghost function AsRequest(): Request {
      Request(preference, generation, token)
    }
  }

  class RuntimeSlot {
    var state: RuntimeState
    var generation: nat
    var probing: bool
    var lastProbe: Option<nat>
    var cancellation: CancellationToken
    /** Every token handed out so far, the current one last. */
    ghost var tokens: seq<CancellationToken>

    /** Exactly the tokens before the current one are cancelled, and no token is handed out twice. */
    ghost predicate Valid()
      reads this, tokens
    {
      && 0 < |tokens| && tokens[|tokens| - 1] == cancellation
      && (forall i, j :: 0 <= i < j < |tokens| ==> tokens[i] != tokens[j])
      && (forall i :: 0 <= i < |tokens| ==> (tokens[i].cancelled <==> i < |tokens| - 1))
    }

    ghost function View(): Slot
      reads this
      requires 0 < |tokens|
    {
      Slot(state, generation, probing, lastProbe.Some?, |tokens| - 1)
    }

    /** `probe` carries a token that this slot handed out. */
    ghost predicate Issued(probe: GitRuntimeProbe)
      reads this
    {
      probe.token < |tokens| && tokens[probe.token] == probe.cancellation
    }

    constructor ()
      ensures Valid() && View() == Start.slot && fresh(cancellation)
    {
      state := RuntimeState(SystemPath, Checking);
      generation, probing, lastProbe := 0, false, None;
      var first := new CancellationToken();
      cancellation := first;
      tokens := [first];
    }

    method SelectGitExecutablePreference(preference: Preference) returns (selected: RuntimeState)
      requires Valid()
      modifies this, cancellation
      ensures Valid() && View() == SelectSlot(old(View()), preference) && selected == state
      ensures old(tokens) <= tokens && fresh(set t | t in tokens[|old(tokens)|..])
      ensures lastProbe == if old(state.preference) == preference then old(lastProbe) else None
    {
      if state.preference != preference {
        cancellation.Cancel();
        var next := new CancellationToken();
        cancellation := next;
        tokens := tokens + [next];
        generation := generation + 1;
        probing := false;
        lastProbe := None;
        state := RuntimeState(preference, Checking);
      }
      selected := state;
    }

    ghost predicate Recent(now: nat)
      reads this
    {
      lastProbe.Some? && now - lastProbe.value < 10
    }

    method BeginGitRuntimeProbe(force: bool, now: nat) returns (probe: Option<GitRuntimeProbe>)
      requires Valid()
      modifies this
      ensures Valid() && tokens == old(tokens)
      ensures View() == BeginSlot(old(View()), force, old(Recent(now))).0
      ensures match BeginSlot(old(View()), force, old(Recent(now))).1
              case None => probe.None? && unchanged(this)
              case Some(request) =>
                && probe.Some? && probe.value.AsRequest() == request && Issued(probe.value) && fresh(probe.value)
                && lastProbe == Some(now)
      ensures probe.Some? <==>
                && !old(probing)
                && (force || (!old(state.availability.Available?)
                              && (old(lastProbe).None? || now - old(lastProbe).value >= 10)))
    {
      if probing
         || (!force && (state.availability.Available?
                        || (lastProbe.Some? && now - lastProbe.value < RETRY_SECONDS)))
      {
        return None;
      }
      probing := true;
      generation := generation + 1;
      lastProbe := Some(now);
      var request := new GitRuntimeProbe(state.preference, generation, cancellation, |tokens| - 1);
      probe := Some(request);
    }

    /** The critical section of a run, after the executable reported `found`. */
    method Publish(probe: GitRuntimeProbe, found: Outcome) returns (published: Option<RuntimeState>)
      requires Valid() && Issued(probe)
      modifies this
      ensures Valid() && tokens == old(tokens) && lastProbe == old(lastProbe)
      ensures (View(), published) ==
              PublishSlot(old(View()), probe.AsRequest(), probe.token < old(View()).token, found)
    {
      if probe.cancellation.cancelled || generation != probe.generation {
        return None;
      }
      state := RuntimeState(probe.preference, found);
      probing := false;
      published := Some(state);
    }

    /** Dropping a request, run or not. */
    method Release(probe: GitRuntimeProbe)
      requires Valid() && Issued(probe)
      modifies this
      ensures Valid() && tokens == old(tokens) && lastProbe == old(lastProbe)
      ensures View() == ReleaseSlot(old(View()), probe.AsRequest())
    {
      if generation == probe.generation {
        probing := false;
      }
    }
  }
}
