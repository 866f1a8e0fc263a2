/** The generation loop of test.py: a soup holds a machine population and a
    tape population; each generation samples machines and tapes, lets each
    sampled machine rewrite its sampled tape, decays the old weights, adds
    the offspring and drops every entry whose weight fell below 1. The
    random draws of each generation are given as parameters. */
module Evolution {
  import opened Bits
  import opened Options
  import opened Tapes
  import opened Machines
  import opened Populations

  /** `range(100)`. */
  const GENERATIONS: nat := 100

  /** The noise draws of reaction `k`; reactions past the end of `flips`
      get none. */
  function FlipsFor(flips: seq<seq<bool>>, k: nat): seq<bool>
  {
    if k < |flips| then flips[k] else []
  }

  /** The tapes produced by the first `n` pairs of `zip(ms, ts)`, a failed
      reaction contributing nothing. */
  function Offspring(ms: seq<Machine>, ts: seq<Tape>, flips: seq<seq<bool>>, n: nat): (r: seq<Tape>)
    requires n <= |ms| && n <= |ts|
    ensures |r| <= n
  {
    if n == 0 then []
    else
      var prev := Offspring(ms, ts, flips, n - 1);
      match Rewrite(ms[n - 1], ts[n - 1], FlipsFor(flips, n - 1))
      case None => prev
      case Some(t') => prev + [t']
  }

  /** `Machine.from_tape` of every offspring tape, in order. */
  function Births(newTs: seq<Tape>): (r: seq<Machine>)
    requires forall i :: 0 <= i < |newTs| ==> newTs[i].width > 0
  {
    seq(|newTs|, i requires 0 <= i < |newTs| => FromTape(newTs[i]))
  }

  /** One more offspring tape adds the machine read off it. */
  lemma BirthsSnoc(newTs: seq<Tape>, t: Tape)
    requires forall i :: 0 <= i < |newTs| ==> newTs[i].width > 0
    requires t.width > 0
    ensures Births(newTs + [t]) == Births(newTs) + [FromTape(t)]
  {
  }

  /** Every offspring tape has its parents' width and is well formed. */
  lemma {:induction false} OffspringFacts(ms: seq<Machine>, ts: seq<Tape>, flips: seq<seq<bool>>, n: nat, w: nat)
    requires n <= |ms| && n <= |ts| && w > 0
    requires forall i :: 0 <= i < |ts| ==> ts[i].width == w
    ensures forall i :: 0 <= i < |Offspring(ms, ts, flips, n)| ==>
      Offspring(ms, ts, flips, n)[i].width == w && WellFormed(Offspring(ms, ts, flips, n)[i])
  {
    if n > 0 {
      OffspringFacts(ms, ts, flips, n - 1, w);
      var r := Rewrite(ms[n - 1], ts[n - 1], FlipsFor(flips, n - 1));
      if r.Some? {
        RewriteKeepsWidth(ms[n - 1], ts[n - 1], FlipsFor(flips, n - 1));
      }
    }
  }

  /** The reaction loop: `for m, t in zip(ms, ts)`, skipping the pairs whose
      reaction fails, collecting each product tape and the machine read off
      it. */
  method React(ms: seq<Machine>, ts: seq<Tape>, flips: seq<seq<bool>>) returns (newMs: seq<Machine>, newTs: seq<Tape>)
    ensures newTs == Offspring(ms, ts, flips, if |ms| < |ts| then |ms| else |ts|)
    ensures forall i :: 0 <= i < |newTs| ==> newTs[i].width > 0
    ensures newMs == Births(newTs)
  {
    newMs, newTs := [], [];
    var n := if |ms| < |ts| then |ms| else |ts|;
    for k := 0 to n
      invariant newTs == Offspring(ms, ts, flips, k)
      invariant forall i :: 0 <= i < |newTs| ==> newTs[i].width > 0
      invariant newMs == Births(newTs)
    {
      var product := RewriteTape(ms[k], ts[k], FlipsFor(flips, k));
      if product.None? {
        continue;
      }
      RewriteKeepsWidth(ms[k], ts[k], FlipsFor(flips, k));
      BirthsSnoc(newTs, product.value);
      var m' := FromTape(product.value);
      newMs := newMs + [m'];
      newTs := newTs + [product.value];
    }
  }

  /** A generation keeps every tape of the tape population at width `w`
      and well formed when the old tapes and the offspring are. */
  lemma NextTapes(pop: map<Tape, real>, rate: real, news: seq<Tape>, w: nat)
    requires forall t :: t in pop ==> t.width == w && WellFormed(t)
    requires forall i :: 0 <= i < |news| ==> news[i].width == w && WellFormed(news[i])
    ensures forall t :: t in Next(pop, rate, news) ==> t.width == w && WellFormed(t)
  {
    NextWeights(pop, rate, news);
  }

  /** The random input of one generation: the sorted draws of the two
      `sample` calls and the noise draws of each reaction. */
  datatype Draws = Draws(machineDraws: seq<int>, tapeDraws: seq<int>, flips: seq<seq<bool>>)

  /** The state of the generation loop: the two dictionaries with their
      insertion orders. */
  datatype Populace = Populace(machines: map<Machine, real>, machineOrder: seq<Machine>,
                               tapes: map<Tape, real>, tapeOrder: seq<Tape>)

  /** What the generation loop keeps true: each order lists its
      dictionary's keys once, and every tape has the soup's width, so that
      Python's value-only tape equality is the key equality. */
  ghost predicate Consistent(width: nat, p: Populace)
  {
    && width > 0
    && IsOrder(p.machineOrder, p.machines)
    && IsOrder(p.tapeOrder, p.tapes)
    && forall t :: t in p.tapes ==> t.width == width && WellFormed(t)
  }

  /** `if len(machines) == 0 or len(tapes) == 0: break`. */
  predicate Empty(p: Populace)
  {
    |p.machines| == 0 || |p.tapes| == 0
  }

  /** The tapes the tape draws select. */
  function SampledTapes(width: nat, p: Populace, drawsT: seq<int>): (ts: seq<Tape>)
    requires Consistent(width, p)
    ensures forall i :: 0 <= i < |ts| ==> ts[i] in p.tapes && ts[i].width == width
  {
    SampleFromPopulation(p.tapes, p.tapeOrder, drawsT);
    Assigned(Items(p.tapes, p.tapeOrder), drawsT)
  }

  /** The offspring tapes of a generation drawn by `drawsM`, `drawsT` and
      `flips`: all of the soup's width. */
  function Products(width: nat, p: Populace, drawsM: seq<int>, drawsT: seq<int>, flips: seq<seq<bool>>): (newTs: seq<Tape>)
    requires Consistent(width, p)
    ensures forall i :: 0 <= i < |newTs| ==> newTs[i].width == width && WellFormed(newTs[i])
  {
    var ms := Assigned(Items(p.machines, p.machineOrder), drawsM);
    var ts := SampledTapes(width, p, drawsT);
    OffspringFacts(ms, ts, flips, if |ms| < |ts| then |ms| else |ts|, width);
    Offspring(ms, ts, flips, if |ms| < |ts| then |ms| else |ts|)
  }

  /** One generation that does not stop: both populations decay, take in
      the generation's offspring and are pruned; the loop's invariant
      survives it. */
  function Advance(width: nat, p: Populace, d: Draws, dm: real, dt: real): (r: Populace)
    requires Consistent(width, p)
    ensures Consistent(width, r)
  {
    var newTs := Products(width, p, d.machineDraws, d.tapeDraws, d.flips);
    var newMs := Births(newTs);
    NextKeepsOrder(p.machines, p.machineOrder, dm, newMs);
    NextKeepsOrder(p.tapes, p.tapeOrder, dt, newTs);
    NextTapes(p.tapes, dt, newTs, width);
    Populace(Next(p.machines, dm, newMs), NextOrder(p.machineOrder, p.machines, dm, newMs),
             Next(p.tapes, dt, newTs), NextOrder(p.tapeOrder, p.tapes, dt, newTs))
  }

  /** One pass of the generation loop: a pass that finds a population
      empty stops the loop and leaves the state as it is; any other pass
      advances it. */
  ghost function PassOf(width: nat, dm: real, dt: real): (Populace, Draws) --> Populace
  {
    (s: Populace, d: Draws) requires Consistent(width, s) =>
      if Empty(s) then s else Advance(width, s, d, dm, dt)
  }

  /** `states[g]` is the state before pass `g` over the inputs `rounds`,
      and the last entry the state after every pass, each pass taking one
      state to the next by `pass`. */
  ghost predicate Trace(rounds: seq<Draws>, states: seq<Populace>, pass: (Populace, Draws) --> Populace)
  {
    && |states| == |rounds| + 1
    && forall g {:trigger pass.requires(states[g], rounds[g])} :: 0 <= g < |rounds| ==>
         pass.requires(states[g], rounds[g]) && states[g + 1] == pass(states[g], rounds[g])
  }

  /** A pass on non-empty populations advances them. */
  lemma PassAdvances(width: nat, dm: real, dt: real, s: Populace, d: Draws)
    requires Consistent(width, s) && !Empty(s)
    ensures PassOf(width, dm, dt).requires(s, d)
    ensures PassOf(width, dm, dt)(s, d) == Advance(width, s, d, dm, dt)
  {
  }

  /** A pass that finds a population empty keeps the state, whatever the
      draws. */
  lemma PassStops(width: nat, dm: real, dt: real, s: Populace)
    requires Consistent(width, s) && Empty(s)
    ensures forall d :: PassOf(width, dm, dt).requires(s, d) && PassOf(width, dm, dt)(s, d) == s
  {
  }

  /** A trace of the first `g` passes extends by the state after pass `g`. */
  lemma TraceSnoc(rounds: seq<Draws>, g: nat, states: seq<Populace>, pass: (Populace, Draws) --> Populace, s': Populace)
    requires g < |rounds| && Trace(rounds[..g], states, pass)
    requires pass.requires(states[g], rounds[g]) && s' == pass(states[g], rounds[g])
    ensures Trace(rounds[..g + 1], states + [s'], pass)
  {
    var all, prefix := states + [s'], rounds[..g + 1];
    forall i | 0 <= i < g + 1
      ensures pass.requires(all[i], prefix[i]) && all[i + 1] == pass(all[i], prefix[i])
    {
      assert prefix[i] == rounds[i];
      if i < g {
        assert rounds[..g][i] == rounds[i];
        assert pass.requires(states[i], rounds[..g][i]);
      }
    }
  }

  /** A trace of the first `g` passes that reached a state every pass keeps
      is completed by repeating that state. */
  lemma TraceStops(rounds: seq<Draws>, g: nat, states: seq<Populace>, pass: (Populace, Draws) --> Populace)
    requires g <= |rounds| && Trace(rounds[..g], states, pass)
    requires forall d :: pass.requires(states[g], d) && pass(states[g], d) == states[g]
    ensures Trace(rounds, states + seq(|rounds| - g, _ => states[g]), pass)
  {
    var all := states + seq(|rounds| - g, _ => states[g]);
    forall i | 0 <= i < |rounds|
      ensures pass.requires(all[i], rounds[i]) && all[i + 1] == pass(all[i], rounds[i])
    {
      if i < g {
        assert rounds[..g][i] == rounds[i];
        assert pass.requires(states[i], rounds[..g][i]);
      } else {
        assert all[i] == all[i + 1] == states[g];
        assert pass(states[g], rounds[i]) == states[g];
      }
    }
  }

  /** The passes determine the trace: two traces from one state agree. */
  lemma {:induction false} TraceUnique(rounds: seq<Draws>, a: seq<Populace>, b: seq<Populace>,
                                       pass: (Populace, Draws) --> Populace, g: nat)
    requires Trace(rounds, a, pass) && Trace(rounds, b, pass)
    requires a[0] == b[0] && g <= |rounds|
    ensures a[g] == b[g]
  {
    if g > 0 {
      TraceUnique(rounds, a, b, pass, g - 1);
      assert pass.requires(a[g - 1], rounds[g - 1]) && pass.requires(b[g - 1], rounds[g - 1]);
    }
  }

  /** The soup of test.py: the two populations and their dictionaries'
      insertion orders, updated in place generation by generation. */
  class Soup {
    const width: nat
    var machines: map<Machine, real>
    var machineOrder: seq<Machine>
    var tapes: map<Tape, real>
    var tapeOrder: seq<Tape>

    function State(): Populace
      reads this
    {
      Populace(machines, machineOrder, tapes, tapeOrder)
    }

    ghost predicate Valid()
      reads this
    {
      Consistent(width, State())
    }

    constructor (width: nat, machines: map<Machine, real>, machineOrder: seq<Machine>,
                 tapes: map<Tape, real>, tapeOrder: seq<Tape>)
      requires Consistent(width, Populace(machines, machineOrder, tapes, tapeOrder))
      ensures Valid()
      ensures this.width == width && State() == Populace(machines, machineOrder, tapes, tapeOrder)
    {
      this.width := width;
      this.machines := machines;
      this.machineOrder := machineOrder;
      this.tapes := tapes;
      this.tapeOrder := tapeOrder;
    }

    /** Sampling and reaction: `sample` of both populations, then the
        reactions of the sampled pairs. */
    method Breed(drawsM: seq<int>, drawsT: seq<int>, flips: seq<seq<bool>>) returns (newMs: seq<Machine>, newTs: seq<Tape>)
      requires Valid()
      requires Sorted(drawsM) && Sorted(drawsT)
      ensures newTs == Products(width, State(), drawsM, drawsT, flips)
      ensures newMs == Births(newTs)
    {
      var ms := Sample(Items(machines, machineOrder), drawsM);
      var ts := Sample(Items(tapes, tapeOrder), drawsT);
      assert ts == SampledTapes(width, State(), drawsT);
      newMs, newTs := React(ms, ts, flips);
    }

    /** One pass of the body of `for g in range(100)`: stop when either
        population is empty; otherwise sample, react, decay by `1 - dm` and
        `1 - dt`, add the offspring and prune. */
    method Step(drawsM: seq<int>, drawsT: seq<int>, flips: seq<seq<bool>>, dm: real, dt: real) returns (halted: bool)
      requires Valid()
      requires Sorted(drawsM) && Sorted(drawsT)
      modifies this
      ensures Valid()
      ensures halted <==> Empty(old(State()))
      ensures halted ==> State() == old(State())
      ensures !halted ==> State() == Advance(width, old(State()), Draws(drawsM, drawsT, flips), dm, dt)
    {
      if |machines| == 0 || |tapes| == 0 {
        return true;
      }
      ghost var p0 := State();
      var newMs, newTs := Breed(drawsM, drawsT, flips);
      var nextMs, nextMsOrder := Generation(machines, machineOrder, dm, newMs);
      var nextTs, nextTsOrder := Generation(tapes, tapeOrder, dt, newTs);
      machines, machineOrder, tapes, tapeOrder := nextMs, nextMsOrder, nextTs, nextTsOrder;
      assert State() == Advance(width, p0, Draws(drawsM, drawsT, flips), dm, dt);
      return false;
    }

    /** Pass `g` of the loop, extending the record of the states before
        each pass: after a pass that stops, the record is completed with
        the unchanged state. */
    method TracedStep(rounds: seq<Draws>, g: nat, dm: real, dt: real, ghost states: seq<Populace>)
      returns (halted: bool, ghost states': seq<Populace>)
      requires Valid() && g < |rounds|
      requires Sorted(rounds[g].machineDraws) && Sorted(rounds[g].tapeDraws)
      requires Trace(rounds[..g], states, PassOf(width, dm, dt)) && states[g] == State()
      modifies this
      ensures Valid()
      ensures halted <==> Empty(old(State()))
      ensures halted ==> State() == old(State()) && Trace(rounds, states', PassOf(width, dm, dt))
      ensures halted ==> states'[..g + 1] == states && states'[|rounds|] == State()
      ensures !halted ==> Trace(rounds[..g + 1], states', PassOf(width, dm, dt))
      ensures !halted ==> states' == states + [State()]
    {
      ghost var p := State();
      halted := Step(rounds[g].machineDraws, rounds[g].tapeDraws, rounds[g].flips, dm, dt);
      if halted {
        PassStops(width, dm, dt, p);
        TraceStops(rounds, g, states, PassOf(width, dm, dt));
        states' := states + seq(|rounds| - g, _ => p);
        return;
      }
      PassAdvances(width, dm, dt, p, rounds[g]);
      assert rounds[g] == Draws(rounds[g].machineDraws, rounds[g].tapeDraws, rounds[g].flips);
      TraceSnoc(rounds, g, states, PassOf(width, dm, dt), State());
      states' := states + [State()];
    }

    /** `for g in range(100)` with the random input of generation `g` in
        `rounds[g]`: `states` records the state before each pass and after
        the last one. The count returned is the number of generations that
        ran to the end, each on non-empty populations; the loop stops at
        the first pass that finds a population empty. */
    method Run(rounds: seq<Draws>, dm: real, dt: real) returns (generations: nat, ghost states: seq<Populace>)
      requires Valid()
      requires |rounds| == GENERATIONS
      requires forall g :: 0 <= g < |rounds| ==> Sorted(rounds[g].machineDraws) && Sorted(rounds[g].tapeDraws)
      modifies this
      ensures Valid()
      ensures Trace(rounds, states, PassOf(width, dm, dt)) && states[0] == old(State())
      ensures generations <= GENERATIONS
      ensures State() == states[generations] == states[GENERATIONS]
      ensures forall g :: 0 <= g < generations ==> !Empty(states[g])
      ensures generations < GENERATIONS ==> Empty(State())
    {
      states := [State()];
      generations := 0;
      for g := 0 to GENERATIONS
        invariant Valid()
        invariant generations == g
        invariant |states| == g + 1 && states[0] == old(State()) && states[g] == State()
        invariant Trace(rounds[..g], states, PassOf(width, dm, dt))
        invariant forall i :: 0 <= i < g ==> !Empty(states[i])
      {
        var halted;
        halted, states := TracedStep(rounds, g, dm, dt, states);
        if halted {
          return;
        }
        generations := g + 1;
      }
      assert rounds[..GENERATIONS] == rounds;
    }
  }
}
