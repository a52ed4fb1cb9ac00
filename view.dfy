/** The sample navigation of WebGLView.js: which image the particle field
    shows, and how a change of image is sequenced with hiding the current
    one. Texture loading is asynchronous, so goto records what it asked of
    the particle field; the load itself is ParticleField.Particles.Load. */
module View {
  import opened JsArrays
  import Controls
  import ParticleField

  /** What goto asked of the particle field. */
  datatype Action =
    /** `particles.init(src)` straight away. */
    | Init(src: Option<string>)
    /** `particles.hide(true)`, with `init(src)` chained on its promise. */
    | HideThenInit(src: Option<string>)
    /** `particles.hide(true)` whose executor threw: the promise is
        rejected and the chained init never runs. */
    | HideRejected(src: Option<string>)

  /** `samples[index]`, which is undefined past the end. */
  function SampleAt(samples: seq<string>, index: nat): Option<string>
  {
    if index < |samples| then Some(samples[index]) else None
  }

  /** `~~(Math.random() * length)` for a random number in [0, 1): the
      product is non-negative and below the length, and `~~` truncates it. */
  function InitialIndex(random: real, len: nat): (r: nat)
    requires 0.0 <= random < 1.0
    ensures len > 0 ==> r < len
    ensures len == 0 ==> r == 0
  {
    ScaledBelow(random, len);
    (random * len as real).Floor
  }

  lemma ScaledBelow(random: real, len: nat)
    requires 0.0 <= random < 1.0
    ensures 0.0 <= random * len as real
    ensures len > 0 ==> random * len as real < len as real
  {
    if len > 0 {
      assert (1.0 - random) * len as real > 0.0;
    }
  }

  /** The index next() moves to: one past the current sample while that is
      not the last, 0 otherwise. Before the first goto `currSample` is
      undefined, and `undefined < n` is false, so next() then goes to 0. */
  function NextIndex(curr: Option<nat>, len: nat): (r: nat)
    ensures len > 0 ==> r < len
    ensures curr.None? ==> r == 0
    ensures curr.Some? ==> (r == curr.value + 1 <==> curr.value + 1 < len)
    ensures curr.Some? && curr.value + 1 >= len ==> r == 0
  {
    if curr.Some? && curr.value < len - 1 then curr.value + 1 else 0
  }

  /** The sample reached by calling next() k times from sample c. */
  function Advance(c: nat, len: nat, k: nat): nat
    decreases k
  {
    if k == 0 then c else Advance(NextIndex(Some(c), len), len, k - 1)
  }

  /** Short of the last sample, each next() moves exactly one on. */
  lemma {:induction false} AdvanceSteps(c: nat, len: nat, k: nat)
    requires c + k < len
    ensures Advance(c, len, k) == c + k
    decreases k
  {
    if k > 0 {
      AdvanceSteps(c + 1, len, k - 1);
    }
  }

  /** k + m calls of next() are k calls followed by m more. */
  lemma {:induction false} AdvanceSplit(c: nat, len: nat, k: nat, m: nat)
    ensures Advance(c, len, k + m) == Advance(Advance(c, len, k), len, m)
    decreases k
  {
    if k > 0 {
      AdvanceSplit(NextIndex(Some(c), len), len, k - 1, m);
    }
  }

  /** Calling next() once per sample comes back to where it started: up
      to the last sample, one wrap to 0, then up to the start again. */
  lemma NextCycles(c: nat, len: nat)
    requires c < len
    ensures Advance(c, len, len) == c
  {
    var toLast := len - 1 - c;
    AdvanceSteps(c, len, toLast);
    AdvanceSplit(c, len, toLast, 1 + c);
    assert Advance(len - 1, len, 1 + c) == Advance(0, len, c);
    AdvanceSteps(0, len, c);
  }

  /** `WebGLView`, reduced to its sample navigation. */
  class WebGLView {
    const samples: seq<string>
    const particles: ParticleField.Particles
    const interactive: Controls.InteractiveControls
    /** `currSample`, undefined (None) until the first goto. */
    var currSample: Option<nat>
    /** What each goto asked of the particle field, oldest first. */
    var actions: seq<Action>

    /** The constructor's navigation: the particles, then the controls,
      then a goto to a random sample, which loads directly. */
    constructor (samples: seq<string>, random: real)
      requires 0.0 <= random < 1.0
      ensures this.samples == samples
      ensures fresh(particles) && fresh(interactive) && interactive.Valid()
      ensures currSample == Some(InitialIndex(random, |samples|))
      ensures actions == [Init(SampleAt(samples, InitialIndex(random, |samples|)))]
    {
      this.samples := samples;
      particles := new ParticleField.Particles();
      interactive := new Controls.InteractiveControls();
      currSample := None;
      actions := [];
      new;
      Goto(InitialIndex(random, |samples|));
    }

    /** goto: with no current sample the image is loaded at once; otherwise
      the current one is hidden first and the load waits for the hide. The
      index becomes current straight away in both cases. */
    method Goto(index: nat)
      requires interactive.Valid()
      modifies this`currSample, this`actions, interactive`objects, interactive`enabled, interactive`listening
      ensures interactive.Valid()
      ensures currSample == Some(index)
      ensures old(currSample).None? ==>
        && actions == old(actions) + [Init(SampleAt(samples, index))]
        && interactive.objects == old(interactive.objects)
        && interactive.enabled == old(interactive.enabled)
        && interactive.listening == old(interactive.listening)
      ensures old(currSample).Some? ==>
        actions == old(actions) + [if particles.object3D != null && particles.object3D_red != null
                                   then HideThenInit(SampleAt(samples, index))
                                   else HideRejected(SampleAt(samples, index))]
      ensures old(currSample).Some? && particles.object3D != null && particles.object3D_red != null ==>
        && interactive.objects == SpliceFound(old(interactive.objects), particles.hitArea)
        && !interactive.enabled
        && interactive.listening
           == if old(interactive.enabled) then old(interactive.listening) + [Controls.Detach]
              else old(interactive.listening)
      ensures old(currSample).Some? && (particles.object3D == null || particles.object3D_red == null) ==>
        && interactive.objects == old(interactive.objects)
        && interactive.enabled == old(interactive.enabled)
        && interactive.listening == old(interactive.listening)
    {
      if currSample.None? {
        actions := actions + [Init(SampleAt(samples, index))];
      } else {
        var outcome := particles.Hide(interactive);
        if outcome.resolves {
          actions := actions + [HideThenInit(SampleAt(samples, index))];
        } else {
          actions := actions + [HideRejected(SampleAt(samples, index))];
        }
      }
      currSample := Some(index);
    }

    /** next: one sample on while the current one is not the last, else
      back to the first. */
    method Next()
      requires interactive.Valid()
      modifies this`currSample, this`actions, interactive`objects, interactive`enabled, interactive`listening
      ensures interactive.Valid()
      ensures currSample == Some(NextIndex(old(currSample), |samples|))
      ensures |samples| > 0 ==> currSample.value < |samples|
      ensures old(currSample).None? ==>
        && actions == old(actions) + [Init(SampleAt(samples, 0))]
        && interactive.objects == old(interactive.objects)
        && interactive.enabled == old(interactive.enabled)
        && interactive.listening == old(interactive.listening)
      ensures old(currSample).Some? ==>
        actions == old(actions) + [if particles.object3D != null && particles.object3D_red != null
                                   then HideThenInit(SampleAt(samples, currSample.value))
                                   else HideRejected(SampleAt(samples, currSample.value))]
      ensures old(currSample).Some? && particles.object3D != null && particles.object3D_red != null ==>
        && interactive.objects == SpliceFound(old(interactive.objects), particles.hitArea)
        && !interactive.enabled
        && interactive.listening
           == if old(interactive.enabled) then old(interactive.listening) + [Controls.Detach]
              else old(interactive.listening)
      ensures old(currSample).Some? && (particles.object3D == null || particles.object3D_red == null) ==>
        && interactive.objects == old(interactive.objects)
        && interactive.enabled == old(interactive.enabled)
        && interactive.listening == old(interactive.listening)
    {
      if currSample.Some? && currSample.value < |samples| - 1 {
        Goto(currSample.value + 1);
      } else {
        Goto(0);
      }
    }
  }
}
