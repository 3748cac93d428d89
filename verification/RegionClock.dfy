/** A two-level loop under the counting and refilling gate: examples/owned_region_clock.rs. */
module RegionClock {
  import opened Wrappers

  const MAX_WORK := 32768
  const INNER_SITE := 14
  const OUTER_SITE := 23

  datatype Input = Input(outer: nat, inner: nat, quantum: nat) {
    ghost predicate Positive() {
      outer > 0 && inner > 0 && quantum > 0
    }

    function Triangular(): nat {
      inner * (inner + 1) / 2
    }

    function Result(): nat {
      outer * inner * (inner + 1) / 2
    }

    function Encounters(): nat {
      outer * (inner + 1)
    }

    function Taken(): int {
      outer * inner - 1
    }

    function Stops(): int
      requires quantum > 0
    {
      Taken() / quantum
    }

    function FinalClock(): ClockWords
      requires quantum > 0
    {
      ClockWords(0, Encounters(), Taken(), quantum - Taken() % quantum)
    }
  }

  /** What argument parsing lets through. */
  predicate Admitted(i: Input) {
    1 <= i.outer <= 32 && 1 <= i.inner <= 32 && 1 <= i.quantum <= MAX_WORK && i.Encounters() <= MAX_WORK
  }

  datatype ClockWords = ClockWords(savedRcx: int, encounters: int, counted: int, remaining: int)

  datatype Expected = Expected(site: nat, count: int, encounters: int, rax: int, rcx: int, r8: int)

  /** The closed form of the machine at its count-th taken backedge. */
  function ExpectedAt(i: Input, count: int): Expected
    requires i.inner > 0
  {
    var a := (count - 1) / i.inner;
    var t := count - a * i.inner;
    if t < i.inner then
      Expected(INNER_SITE, count, a * (i.inner + 1) + t, a * i.Triangular() + t * (2 * i.inner - t + 1) / 2, i.inner - t, i.outer - a)
    else
      Expected(OUTER_SITE, count, (a + 1) * (i.inner + 1), (a + 1) * i.Triangular(), 0, i.outer - a - 1)
  }

  // ---------------------------------------------------------------- arithmetic

  /** inner + (inner - 1) + ...: what t rounds of the inner loop add. */
  function Added(inner: nat, t: nat): (sum: nat)
    requires t <= inner
    ensures 2 * sum == t * (2 * inner - t + 1)
  {
    if t == 0 then 0
    else
      assert t * (2 * inner - t + 1) == (t - 1) * (2 * inner - (t - 1) + 1) + 2 * (inner - t + 1);
      Added(inner, t - 1) + (inner - t + 1)
  }

  lemma AtLeastOnce(d: int, n: nat)
    requires d >= 1
    ensures d * n >= n
  {
  }

  lemma SmallMultiple(d: int, n: nat)
    requires 0 - n < d * n < n
    ensures d == 0
  {
    if d >= 1 {
      AtLeastOnce(d, n);
    } else if d <= -1 {
      AtLeastOnce(-d, n);
    }
  }

  lemma SameQuotient(a: int, b: int, n: nat, r: nat, m: nat)
    requires a * n + r == b * n + m && r < n && m < n
    ensures a == b
  {
    assert (a - b) * n == a * n - b * n;
    SmallMultiple(a - b, n);
  }

  lemma DivideBack(a: nat, n: nat, r: nat)
    requires r < n
    ensures (a * n + r) / n == a && (a * n + r) % n == r
  {
    var x := a * n + r;
    SameQuotient(a, x / n, n, r, x % n);
  }

  lemma OneMore(c: nat, q: nat)
    requires q > 0
    ensures if c % q == q - 1 then (c + 1) % q == 0 && (c + 1) / q == c / q + 1
            else (c + 1) % q == c % q + 1 && (c + 1) / q == c / q
  {
    var a, r := c / q, c % q;
    assert c == a * q + r;
    if r == q - 1 {
      assert c + 1 == (a + 1) * q + 0;
      DivideBack(a + 1, q, 0);
    } else {
      DivideBack(a, q, r + 1);
    }
  }

  lemma HalfOfProduct(a: nat, b: nat)
    requires b % 2 == 0
    ensures a * b / 2 == a * (b / 2)
  {
    var h := b / 2;
    assert b == 2 * h;
    assert a * b == 2 * (a * h);
  }

  lemma ResultIsTriangles(i: Input)
    ensures i.Result() == i.outer * i.Triangular()
  {
    var square := i.inner * (i.inner + 1);
    assert 2 * Added(i.inner, i.inner) == square;
    assert i.outer * i.inner * (i.inner + 1) == i.outer * square;
    HalfOfProduct(i.outer, square);
  }

  lemma InnerForm(i: Input, a: nat, t: nat)
    requires 0 < t < i.inner
    ensures ExpectedAt(i, a * i.inner + t)
         == Expected(INNER_SITE, a * i.inner + t, a * (i.inner + 1) + t, a * i.Triangular() + Added(i.inner, t), i.inner - t, i.outer - a)
  {
    DivideBack(a, i.inner, t - 1);
    assert a * i.inner + t - 1 == a * i.inner + (t - 1);
    assert t * (2 * i.inner - t + 1) / 2 == Added(i.inner, t);
  }

  lemma OuterForm(i: Input, a: nat)
    requires i.inner > 0
    ensures ExpectedAt(i, a * i.inner + i.inner)
         == Expected(OUTER_SITE, a * i.inner + i.inner, (a + 1) * (i.inner + 1), (a + 1) * i.Triangular(), 0, i.outer - a - 1)
  {
    DivideBack(a, i.inner, i.inner - 1);
    assert a * i.inner + i.inner - 1 == a * i.inner + (i.inner - 1);
  }

  // ---------------------------------------------------------------- gate and callback

  /**
   * Registers, the four clock words, and what the callback remembers and reports. `undisturbed` stands for the facts
   * about its surroundings that the callback compares: process, thread, canary bytes and the matching resume.
   */
  datatype Machine = Machine(
    rax: int, rcx: int, r8: int, rdi: int, rsi: int, clock: ClockWords, last: int, stops: seq<Expected>, undisturbed: bool)

  /** Which of the two managed controls belongs to a site. */
  function ControlOf(site: nat): nat {
    if site == INNER_SITE then 0 else 1
  }

  /** The callback: it recomputes where it must be, compares everything, reports, and refills; none is its fatal exit. */
  function HookStep(i: Input, site: nat, control: nat, zero: bool, m: Machine): Option<Machine>
    requires i.inner > 0
  {
    var count := m.last + i.quantum;
    if count > i.Taken() then None
    else
      var want := ExpectedAt(i, count);
      if !m.undisturbed || control != ControlOf(want.site) || site != want.site then None
      else if (m.rax, m.rcx, m.r8, m.rdi, m.rsi) != (want.rax, want.rcx, want.r8, i.outer, i.inner) || zero then None
      else if m.clock != ClockWords(want.rcx, want.encounters, count, 0) then None
      else if i.quantum == 0 || m.clock.remaining != 0 then None
      else Some(m.(clock := m.clock.(remaining := i.quantum), last := count, stops := m.stops + [want]))
  }

  /** The inline gate in front of a backedge: every visit is an encounter, only a taken one is charged. */
  function GateStep(i: Input, site: nat, m: Machine, taken: bool): Option<Machine>
    requires i.inner > 0
  {
    var visited := m.clock.(savedRcx := m.rcx, encounters := m.clock.encounters + 1);
    if !taken then Some(m.(clock := visited))
    else
      var charged := visited.(counted := visited.counted + 1, remaining := visited.remaining - 1);
      if charged.remaining != 0 then Some(m.(clock := charged)) else HookStep(i, site, ControlOf(site), !taken, m.(clock := charged))
  }

  /** c taken backedges have been charged, and the callback has run at each multiple of the quantum among them. */
  ghost predicate Counting(i: Input, m: Machine, c: nat)
    requires i.inner > 0 && i.quantum > 0
  {
    && m.rdi == i.outer && m.rsi == i.inner && m.undisturbed
    && m.clock.counted == c && m.clock.remaining == i.quantum - c % i.quantum && m.last == c - c % i.quantum
    && |m.stops| == c / i.quantum
    && forall k | 0 <= k < |m.stops| :: m.stops[k] == ExpectedAt(i, (k + 1) * i.quantum)
  }

  /** A taken visit in the expected state is charged, and the callback, if it is due, accepts what it finds. */
  lemma GateCounts(i: Input, site: nat, m: Machine, c: nat)
    requires i.Positive() && Counting(i, m, c) && c < i.Taken()
    requires ExpectedAt(i, c + 1) == Expected(site, c + 1, m.clock.encounters + 1, m.rax, m.rcx, m.r8)
    ensures var r := GateStep(i, site, m, true);
            && r.Some? && Counting(i, r.value, c + 1)
            && r.value.clock.encounters == m.clock.encounters + 1 && r.value.clock.savedRcx == m.rcx
            && (r.value.rax, r.value.rcx, r.value.r8) == (m.rax, m.rcx, m.r8)
  {
    hide ExpectedAt;
    OneMore(c, i.quantum);
    if c % i.quantum == i.quantum - 1 {
      var k := c / i.quantum;
      assert c == k * i.quantum + (i.quantum - 1);
      assert c + 1 == (k + 1) * i.quantum;
    }
  }

  /** The machine at entry: the arguments in RDI and RSI, and a leased clock with one full quantum. */
  function Entered(i: Input, undisturbed: bool): Machine {
    Machine(0, 0, 0, i.outer, i.inner, ClockWords(0, 0, 0, i.quantum), 0, [], undisturbed)
  }

  class Region {
    const input: Input
    var rax: int
    var rcx: int
    var r8: int
    const rdi: int
    const rsi: int
    const undisturbed: bool
    var clock: ClockWords
    var last: int
    var stops: seq<Expected>

    /** A leased clock holds one full quantum and three zero words. */
    constructor (i: Input, undisturbed: bool)
      ensures input == i
      ensures State() == Entered(i, undisturbed)
    {
      input, this.undisturbed := i, undisturbed;
      rdi, rsi := i.outer, i.inner;
      rax, rcx, r8 := 0, 0, 0;
      clock := ClockWords(0, 0, 0, i.quantum);
      last, stops := 0, [];
    }

    function State(): Machine
      reads this
    {
      Machine(rax, rcx, r8, rdi, rsi, clock, last, stops, undisturbed)
    }

    method Hook(site: nat, control: nat, zero: bool) returns (alive: bool)
      requires input.inner > 0
      modifies this
      ensures alive <==> HookStep(input, site, control, zero, old(State())).Some?
      ensures alive ==> State() == HookStep(input, site, control, zero, old(State())).value
    {
      hide ExpectedAt;
      var count := last + input.quantum;
      if count > input.Taken() {
        return false;
      }
      var want := ExpectedAt(input, count);
      if !undisturbed || control != ControlOf(want.site) || site != want.site {
        return false;
      }
      if (rax, rcx, r8, rdi, rsi) != (want.rax, want.rcx, want.r8, input.outer, input.inner) || zero {
        return false;
      }
      if clock != ClockWords(want.rcx, want.encounters, count, 0) {
        return false;
      }
      stops := stops + [want];
      if input.quantum == 0 || clock.remaining != 0 {
        return false;
      }
      clock := clock.(remaining := input.quantum);
      last := count;
      alive := true;
    }

    method Gate(site: nat, taken: bool) returns (alive: bool)
      requires input.inner > 0
      modifies this
      ensures alive <==> GateStep(input, site, old(State()), taken).Some?
      ensures alive ==> State() == GateStep(input, site, old(State()), taken).value
    {
      hide HookStep;
      clock := clock.(savedRcx := rcx, encounters := clock.encounters + 1);
      if taken {
        clock := clock.(counted := clock.counted + 1, remaining := clock.remaining - 1);
        if clock.remaining == 0 {
          alive := Hook(site, ControlOf(site), !taken);
          return;
        }
      }
      alive := true;
    }

    /**
     * The whole run: for every positive outer, inner and quantum the callback never dies, the c-th taken backedge
     * is met exactly as the closed form says, stops fall on every multiple of the quantum, and the results agree.
     */
    method Execute() returns (alive: bool, ghost taken: seq<Expected>)
      requires input.Positive() && State() == Entered(input, true)
      modifies this
      ensures alive
      ensures |taken| == input.Taken() && forall c | 0 <= c < |taken| :: taken[c] == ExpectedAt(input, c + 1)
      ensures rax == input.Result() && clock == input.FinalClock()
      ensures |stops| == input.Stops() && forall k | 0 <= k < |stops| :: stops[k] == ExpectedAt(input, (k + 1) * input.quantum)
      ensures last == input.Stops() * input.quantum
    {
      hide ExpectedAt, GateStep, Counting;
      taken := [];
      alive := true;
      r8 := input.outer;
      ghost var a := 0;
      StartsCounting(input, State());
      var outerAgain := true;
      while outerAgain
        invariant a == input.outer - r8 && 0 <= a && (outerAgain ==> a < input.outer) && (!outerAgain ==> a == input.outer && rcx == 0)
        invariant alive && rax == a * input.Triangular()
        invariant clock.encounters == a * (input.inner + 1)
        invariant !outerAgain ==> clock.savedRcx == 0
        invariant |taken| == a * input.inner - (if outerAgain then 0 else 1) && Counting(input, State(), |taken|)
        invariant forall c | 0 <= c < |taken| :: taken[c] == ExpectedAt(input, c + 1)
        decreases r8, outerAgain
      {
        var more := InnerLoop(a, taken);
        taken := taken + more;
        ghost var c := |taken|;
        MoveRegisters(input, State(), State().(r8 := r8 - 1), c);
        r8 := r8 - 1;
        FullRound(input, a);
        if r8 == 0 {
          UntakenCounts(input, OUTER_SITE, State(), c);
          alive := Gate(OUTER_SITE, false);
          outerAgain := false;
        } else {
          OuterForm(input, a);
          SmallerCount(input, a + 1);
          GateCounts(input, OUTER_SITE, State(), c);
          taken := taken + [Expected(OUTER_SITE, c + 1, clock.encounters + 1, rax, rcx, r8)];
          alive := Gate(OUTER_SITE, true);
        }
        a := a + 1;
      }
      CountedToTheEnd(input, State());
    }

    /** The inner loop of one outer round, a rounds having been completed. */
    method InnerLoop(ghost a: nat, ghost before: seq<Expected>) returns (ghost more: seq<Expected>)
      requires input.Positive() && a < input.outer && r8 == input.outer - a
      requires rax == a * input.Triangular() && clock.encounters == a * (input.inner + 1)
      requires |before| == a * input.inner && Counting(input, State(), |before|)
      modifies this
      ensures r8 == old(r8) && rcx == 0 && rax == a * input.Triangular() + Added(input.inner, input.inner)
      ensures clock.encounters == a * (input.inner + 1) + input.inner
      ensures |more| == input.inner - 1 && Counting(input, State(), |before| + |more|)
      ensures forall k | 0 <= k < |more| :: more[k] == ExpectedAt(input, |before| + k + 1)
    {
      hide ExpectedAt, GateStep, Counting;
      more := [];
      MoveRegisters(input, State(), State().(rcx := input.inner), |before|);
      rcx := input.inner;
      ghost var t := 0;
      var again := true;
      while again
        invariant t == input.inner - rcx && 0 <= t && (again ==> t < input.inner) && (!again ==> t == input.inner)
        invariant r8 == input.outer - a && rax == a * input.Triangular() + Added(input.inner, t)
        invariant clock.encounters == a * (input.inner + 1) + t
        invariant |more| == t - (if again then 0 else 1) && Counting(input, State(), |before| + |more|)
        invariant forall k | 0 <= k < |more| :: more[k] == ExpectedAt(input, |before| + k + 1)
        decreases rcx, again
      {
        ghost var c := |before| + |more|;
        MoveRegisters(input, State(), State().(rax := rax + rcx, rcx := rcx - 1), c);
        rax := rax + rcx;
        rcx := rcx - 1;
        t := t + 1;
        if rcx == 0 {
          UntakenCounts(input, INNER_SITE, State(), c);
          var unused := Gate(INNER_SITE, false);
          again := false;
        } else {
          InnerForm(input, a, t);
          InnerCount(input, a, t);
          GateCounts(input, INNER_SITE, State(), c);
          more := more + [Expected(INNER_SITE, c + 1, clock.encounters + 1, rax, rcx, r8)];
          var unused := Gate(INNER_SITE, true);
        }
      }
    }
  }

  lemma StartsCounting(i: Input, m: Machine)
    requires i.Positive() && m.clock == ClockWords(0, 0, 0, i.quantum) && m.last == 0 && m.stops == []
    requires m.rdi == i.outer && m.rsi == i.inner && m.undisturbed
    ensures Counting(i, m, 0)
  {
  }

  lemma MoveRegisters(i: Input, m: Machine, n: Machine, c: nat)
    requires i.Positive() && Counting(i, m, c) && n.clock == m.clock && n.last == m.last && n.stops == m.stops
    requires n.rdi == m.rdi && n.rsi == m.rsi && n.undisturbed == m.undisturbed
    ensures Counting(i, n, c)
  {
    hide ExpectedAt;
  }

  lemma UntakenCounts(i: Input, site: nat, m: Machine, c: nat)
    requires i.Positive() && Counting(i, m, c)
    ensures var r := GateStep(i, site, m, false);
            && r.Some? && Counting(i, r.value, c)
            && r.value.clock.encounters == m.clock.encounters + 1 && r.value.clock.savedRcx == m.rcx
            && (r.value.rax, r.value.rcx, r.value.r8) == (m.rax, m.rcx, m.r8)
  {
    hide ExpectedAt;
  }

  /** A full round of the inner loop adds one triangle. */
  lemma FullRound(i: Input, a: nat)
    ensures a * i.Triangular() + Added(i.inner, i.inner) == (a + 1) * i.Triangular()
    ensures a * (i.inner + 1) + i.inner + 1 == (a + 1) * (i.inner + 1)
    ensures a * i.inner + i.inner == (a + 1) * i.inner
  {
    assert Added(i.inner, i.inner) == i.Triangular();
  }

  lemma SmallerCount(i: Input, a: nat)
    requires a < i.outer
    ensures a * i.inner <= i.Taken() - i.inner + 1
  {
    AtLeastOnce(i.outer - a, i.inner);
    assert (i.outer - a) * i.inner == i.outer * i.inner - a * i.inner;
  }

  lemma InnerCount(i: Input, a: nat, t: nat)
    requires a < i.outer && t < i.inner
    ensures a * i.inner + t <= i.Taken()
  {
    SmallerCount(i, a);
  }

  lemma CountedToTheEnd(i: Input, m: Machine)
    requires i.Positive() && i.Taken() >= 0 && Counting(i, m, i.Taken())
    ensures |m.stops| == i.Stops() && m.last == i.Stops() * i.quantum
    ensures m.clock.counted == i.Taken() && m.clock.remaining == i.quantum - i.Taken() % i.quantum
    ensures forall k | 0 <= k < |m.stops| :: m.stops[k] == ExpectedAt(i, (k + 1) * i.quantum)
    ensures i.Result() == i.outer * i.Triangular()
  {
    hide ExpectedAt;
    ResultIsTriangles(i);
    var n, q := i.Taken(), i.quantum;
    assert n == (n / q) * q + n % q;
  }

  /** For parsed arguments every register and clock word of a taken visit stays far below 2^64, as does the result. */
  lemma AdmittedRunsNeverWrap(i: Input, c: nat)
    requires Admitted(i) && 1 <= c <= i.Taken()
    ensures var e := ExpectedAt(i, c);
            && 0 < e.encounters <= i.Encounters() <= MAX_WORK && e.count == c < i.Encounters()
            && 0 <= e.rax <= i.Result() <= 32 * 528
            && 0 <= e.rcx <= i.inner && 0 < e.r8 <= i.outer
  {
    hide ExpectedAt;
    var a, t := FindPlace(i, c);
    PlaceBounds(i, a, t);
    FewerTaken(i);
    SmallTriangle(i);
    ResultIsTriangles(i);
  }

  lemma FindPlace(i: Input, c: nat) returns (a: nat, t: nat)
    requires i.inner > 0 && 1 <= c <= i.Taken()
    ensures c == a * i.inner + t && a < i.outer && 1 <= t <= i.inner
  {
    a, t := (c - 1) / i.inner, (c - 1) % i.inner + 1;
    RoundOf(i, a, t);
  }

  lemma FewerTaken(i: Input)
    ensures i.Taken() < i.Encounters()
  {
  }

  lemma PlaceBounds(i: Input, a: nat, t: nat)
    requires a < i.outer && 1 <= t <= i.inner && a * i.inner + t <= i.Taken()
    ensures var e := ExpectedAt(i, a * i.inner + t);
            && 0 < e.encounters <= i.Encounters() && e.count == a * i.inner + t
            && 0 <= e.rax <= i.Result() && 0 <= e.rcx <= i.inner && 0 < e.r8 <= i.outer
  {
    RoundBounds(i, a, t);
    if t < i.inner {
      InnerForm(i, a, t);
      hide *;
    } else {
      OuterForm(i, a);
      RoundBelow(i, a);
      hide *;
    }
  }

  /** Whatever the place inside round a, sums stay below those of the completed round and of the whole run. */
  lemma RoundBounds(i: Input, a: nat, t: nat)
    requires t <= i.inner && a < i.outer
    ensures 0 <= a * i.Triangular() + Added(i.inner, t) <= (a + 1) * i.Triangular() <= i.Result()
    ensures 0 <= a * (i.inner + 1) + t <= (a + 1) * (i.inner + 1) <= i.Encounters()
    ensures i.Result() == i.outer * i.Triangular()
  {
    hide Added;
    FullRound(i, a);
    AddedGrows(i.inner, t);
    ResultIsTriangles(i);
    Rounds(i.Triangular(), a + 1, i.outer);
    Rounds(i.inner + 1, a + 1, i.outer);
  }

  lemma RoundOf(i: Input, a: nat, t: nat)
    requires i.inner > 0 && 1 <= t <= i.inner && a * i.inner + t < i.outer * i.inner
    ensures a < i.outer
  {
    if a >= i.outer {
      Rounds(i.inner, i.outer, a);
    }
  }

  lemma RoundBelow(i: Input, a: nat)
    requires i.inner > 0 && a * i.inner + i.inner < i.outer * i.inner
    ensures a + 1 < i.outer
  {
    if a + 1 >= i.outer {
      Rounds(i.inner, i.outer, a + 1);
    }
  }

  lemma Rounds(n: nat, a: nat, b: nat)
    requires a <= b
    ensures a * n <= b * n
  {
  }

  lemma SmallTriangle(i: Input)
    requires Admitted(i)
    ensures i.Triangular() <= 528 && i.outer * i.Triangular() <= 32 * 528
  {
    Rounds(i.inner + 1, i.inner, 32);
    assert i.inner * (i.inner + 1) <= 32 * 33;
    Rounds(i.Triangular(), i.outer, 32);
  }

  lemma {:induction false} AddedGrows(inner: nat, t: nat)
    requires t <= inner
    ensures Added(inner, t) <= Added(inner, inner)
    decreases inner - t
  {
    if t < inner {
      AddedGrows(inner, t + 1);
    }
  }
}
