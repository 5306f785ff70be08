/** The bonding group of bonding.rs: liveness, the weighted send rotation and the NACK path. */
module Bonding {
  import opened Bytes
  import opened Clock
  import Rtt
  import opened Division

  const WEIGHT_DUPLICATE: u32 := 0

  datatype Path = Path(index: byte, weight: u32, wCount: u32, priority: u32, rtt: Rtt.Estimator,
                       lastSeen: u64, seen: bool, dead: bool)

  predicate ValidPaths(paths: seq<Path>) {
    && (forall i, j :: 0 <= i < j < |paths| ==> paths[i].index != paths[j].index)
    && (forall i :: 0 <= i < |paths| ==> paths[i].wCount <= paths[i].weight && (paths[i].dead ==> paths[i].seen))
  }

  /** Seen, and silent past `limit`. */
  predicate Silent(p: Path, now: u64, limit: i64) {
    p.seen && Since(now, p.lastSeen) > limit
  }

  /** Silence is counted from the last arrival, and lasts longer than the limit. */
  lemma SilentIsOverdue(p: Path, now: u64, limit: i64)
    requires -I64_MAX <= limit < I64_MAX
    ensures Silent(p, now, limit) <==> p.seen && now - p.lastSeen > limit
    ensures Live(p, now, limit) <==> p.seen && now - p.lastSeen <= limit
  {}

  // ---- The rotation ----

  /** Which paths take part: weighted and not proven dead. */
  function Mask(paths: seq<Path>, now: u64, timeout: i64): (r: seq<bool>)
    ensures |r| == |paths|
    ensures forall i :: 0 <= i < |r| ==> (r[i] <==> paths[i].weight > 0 && !Silent(paths[i], now, timeout))
  {
    if paths == [] then []
    else [paths[0].weight > 0 && !Silent(paths[0], now, timeout)] + Mask(paths[1..], now, timeout)
  }

  /** The live path of most credit among the first `n`, the earliest on a tie. */
  function Best(paths: seq<Path>, live: seq<bool>, n: nat): (r: Option<nat>)
    requires n <= |paths| == |live|
    ensures r.None? <==> forall j :: 0 <= j < n ==> !live[j]
    ensures r.Some? ==> r.value < n && live[r.value]
                        && (forall j :: 0 <= j < n && live[j] ==> paths[j].wCount <= paths[r.value].wCount)
                        && (forall j :: 0 <= j < r.value && live[j] ==> paths[j].wCount < paths[r.value].wCount)
  {
    if n == 0 then None
    else
      var best := Best(paths, live, n - 1);
      if live[n - 1] && (best.None? || paths[n - 1].wCount > paths[best.value].wCount) then Some(n - 1) else best
  }

  lemma NoneYet(paths: seq<Path>, live: seq<bool>)
    requires |paths| == |live|
    ensures Best(paths, live, 0) == None
  {}

  lemma BestStep(paths: seq<Path>, live: seq<bool>, i: nat)
    requires i < |paths| == |live|
    ensures var best := Best(paths, live, i);
            Best(paths, live, i + 1)
            == if live[i] && (best.None? || paths[i].wCount > paths[best.value].wCount) then Some(i) else best
  {}

  function Refilled(paths: seq<Path>, live: seq<bool>): (r: seq<Path>)
    requires |paths| == |live|
    ensures |r| == |paths|
    ensures forall i :: 0 <= i < |r| ==>
              r[i] == if live[i] then paths[i].(wCount := paths[i].weight) else paths[i]
  {
    seq(|paths|, i requires 0 <= i < |paths| =>
      if live[i] then paths[i].(wCount := paths[i].weight) else paths[i])
  }

  function Spent(paths: seq<Path>, k: nat): seq<Path>
    requires k < |paths|
  {
    paths[k := paths[k].(wCount := if paths[k].wCount == 0 then 0 else paths[k].wCount - 1)]
  }

  /** The live path to elect has no credit left, so none has. */
  predicate Exhausted(paths: seq<Path>, live: seq<bool>)
    requires |paths| == |live|
  {
    var best := Best(paths, live, |paths|);
    best.Some? && paths[best.value].wCount == 0
  }

  function Election(paths: seq<Path>, live: seq<bool>): (seq<Path>, Option<nat>)
    requires |paths| == |live|
  {
    var best := Best(paths, live, |paths|);
    if best.None? then (paths, None) else (Spent(paths, best.value), best)
  }

  /** One election: the paths after it, and the position elected. */
  function Elect(paths: seq<Path>, live: seq<bool>): (r: (seq<Path>, Option<nat>))
    requires |paths| == |live|
    ensures |r.0| == |paths|
    ensures r.1.None? <==> forall j :: 0 <= j < |live| ==> !live[j]
    ensures r.1.Some? ==> r.1.value < |paths| && live[r.1.value]
    ensures forall i :: 0 <= i < |paths| ==> r.0[i] == paths[i].(wCount := r.0[i].wCount)
    ensures forall i :: 0 <= i < |paths| && !live[i] ==> r.0[i] == paths[i]
    ensures forall i :: 0 <= i < |paths| && paths[i].wCount <= paths[i].weight ==> r.0[i].wCount <= paths[i].weight
  {
    Election(if Exhausted(paths, live) then Refilled(paths, live) else paths, live)
  }

  lemma ElectIsElection(paths: seq<Path>, live: seq<bool>)
    requires |paths| == |live|
    ensures Elect(paths, live) == Election(if Exhausted(paths, live) then Refilled(paths, live) else paths, live)
    ensures (forall j :: 0 <= j < |live| ==> !live[j]) ==> Elect(paths, live) == (paths, None)
  {}

  /** Elections while the same paths stay live: the paths after them, and the positions elected. */
  function Rotate(paths: seq<Path>, live: seq<bool>, n: nat): (r: (seq<Path>, seq<nat>))
    requires |paths| == |live| && exists j :: 0 <= j < |live| && live[j]
    ensures |r.0| == |paths| && |r.1| == n
    ensures forall i :: 0 <= i < |paths| ==> r.0[i] == paths[i].(wCount := r.0[i].wCount)
  {
    if n == 0 then (paths, [])
    else
      var before := Rotate(paths, live, n - 1);
      var step := Elect(before.0, live);
      (step.0, before.1 + [step.1.value])
  }

  /** The live paths' credits, and their weights, in all. */
  function Credit(paths: seq<Path>, live: seq<bool>, n: nat): nat
    requires n <= |paths| == |live|
  {
    if n == 0 then 0 else Credit(paths, live, n - 1) + if live[n - 1] then paths[n - 1].wCount else 0
  }

  function Weight(paths: seq<Path>, live: seq<bool>, n: nat): nat
    requires n <= |paths| == |live|
  {
    if n == 0 then 0 else Weight(paths, live, n - 1) + if live[n - 1] then paths[n - 1].weight else 0
  }

  function Count(elected: seq<nat>, i: nat): nat {
    if elected == [] then 0
    else Count(elected[..|elected| - 1], i) + if elected[|elected| - 1] == i then 1 else 0
  }

  predicate Full(paths: seq<Path>, live: seq<bool>)
    requires |paths| == |live|
  {
    forall i :: 0 <= i < |paths| && live[i] ==> paths[i].wCount == paths[i].weight
  }

  lemma {:induction false} CreditFacts(paths: seq<Path>, live: seq<bool>, n: nat)
    requires n <= |paths| == |live|
    ensures Credit(paths, live, n) == 0 <==> forall j :: 0 <= j < n && live[j] ==> paths[j].wCount == 0
    ensures Full(paths, live) ==> Credit(paths, live, n) == Weight(paths, live, n)
  {
    if n > 0 {
      CreditFacts(paths, live, n - 1);
    }
  }

  lemma {:induction false} CreditAfterSpend(paths: seq<Path>, live: seq<bool>, k: nat, n: nat)
    requires n <= |paths| == |live| && k < |paths| && live[k] && paths[k].wCount > 0
    ensures Credit(Spent(paths, k), live, n) == Credit(paths, live, n) - if k < n then 1 else 0
    ensures k < n ==> Credit(paths, live, n) > 0
  {
    if n > 0 {
      CreditAfterSpend(paths, live, k, n - 1);
    }
  }

  lemma {:induction false} WeightIgnoresCredit(a: seq<Path>, b: seq<Path>, live: seq<bool>, n: nat)
    requires n <= |a| == |b| == |live|
    requires forall i :: 0 <= i < n ==> a[i].weight == b[i].weight
    ensures Weight(a, live, n) == Weight(b, live, n)
  {
    if n > 0 {
      WeightIgnoresCredit(a, b, live, n - 1);
    }
  }

  predicate Weighted(paths: seq<Path>, live: seq<bool>) {
    && |paths| == |live|
    && (exists j :: 0 <= j < |live| && live[j])
    && (forall i :: 0 <= i < |paths| && live[i] ==> paths[i].weight > 0)
  }

  /** One election takes one credit, from the path elected; when no live credit is left it first
      gives every live path its weight again. */
  lemma ElectSpendsOne(paths: seq<Path>, live: seq<bool>)
    requires Weighted(paths, live)
    ensures var (after, k) := Elect(paths, live);
            var from := if Credit(paths, live, |paths|) == 0 then Refilled(paths, live) else paths;
            && k.Some? && from[k.value].wCount > 0
            && after == Spent(from, k.value)
            && Credit(after, live, |paths|) == Credit(from, live, |paths|) - 1
  {
    CreditFacts(paths, live, |paths|);
    var from := if Credit(paths, live, |paths|) == 0 then Refilled(paths, live) else paths;
    var k := Elect(paths, live).1.value;
    CreditAfterSpend(from, live, k, |paths|);
  }

  /** The round the `n`-th election belongs to. */
  function Round(n: nat, s: nat): nat
    requires s > 0
  {
    if n == 0 then 1 else (n - 1) / s + 1
  }

  lemma RoundSteps(n: nat, s: nat)
    requires s > 0
    ensures Round(n, s) * s >= n
    ensures Round(n + 1, s) == if Round(n, s) * s == n then Round(n, s) + 1 else Round(n, s)
  {
    if n > 0 {
      var q, r := (n - 1) / s, (n - 1) % s;
      assert n - 1 == q * s + r;
      Distribute(s, q);
      if r == s - 1 {
        assert n == (q + 1) * s;
        Quotient(n, q + 1, 0, s);
      } else {
        Quotient(n, q, r + 1, s);
      }
    } else {
      assert 0 / s == 0;
    }
  }

  lemma CountOfMore(elected: seq<nat>, k: nat, i: nat)
    ensures Count(elected + [k], i) == Count(elected, i) + if k == i then 1 else 0
  {
    assert (elected + [k])[..|elected|] == elected;
  }

  lemma StepConserves(before: seq<Path>, live: seq<bool>, i: nat, c: nat, round: nat, s: nat)
    requires Weighted(before, live) && i < |before| && live[i]
    requires Weight(before, live, |before|) == s && c + before[i].wCount == round * before[i].weight
    ensures var (after, k) := Elect(before, live);
            var credit := Credit(before, live, |before|);
            && k.Some?
            && c + (if k.value == i then 1 else 0) + after[i].wCount
               == (if credit == 0 then round + 1 else round) * before[i].weight
            && Credit(after, live, |before|) == (if credit == 0 then s else credit) - 1
  {
    hide Elect, Best, Weight, Credit;
    ElectSpendsOne(before, live);
    CreditFacts(before, live, |before|);
    if Credit(before, live, |before|) == 0 {
      var full := Refilled(before, live);
      CreditFacts(full, live, |before|);
      WeightIgnoresCredit(before, full, live, |before|);
      Distribute(before[i].weight, round);
    }
  }

  /** Every credit ever granted is either spent in an election of that path or still there. */
  lemma {:induction false} RotationConserves(paths: seq<Path>, live: seq<bool>, n: nat, i: nat)
    requires Weighted(paths, live) && Full(paths, live) && i < |paths| && live[i]
    ensures var s := Weight(paths, live, |paths|);
            var (after, elected) := Rotate(paths, live, n);
            && s > 0
            && Count(elected, i) + after[i].wCount == Round(n, s) * paths[i].weight
            && Credit(after, live, |paths|) == Round(n, s) * s - n
  {
    hide Elect, Round, Weight, Credit, Best;
    var s := Weight(paths, live, |paths|);
    SomeWeight(paths, live, i, |paths|);
    CreditFacts(paths, live, |paths|);
    if n == 0 {
      RoundOfNone(s);
    } else {
      RotationConserves(paths, live, n - 1, i);
      var (before, elected) := Rotate(paths, live, n - 1);
      WeightIgnoresCredit(paths, before, live, |paths|);
      StepConserves(before, live, i, Count(elected, i), Round(n - 1, s), s);
      CountOfMore(elected, Elect(before, live).1.value, i);
      RoundSteps(n - 1, s);
      NextRound(n, s, Round(n - 1, s), Round(n, s), Credit(before, live, |before|));
    }
  }

  lemma NextRound(n: nat, s: nat, round: nat, next: nat, credit: int)
    requires s > 0 && credit == round * s - (n - 1) && next == if round * s == n - 1 then round + 1 else round
    ensures next == if credit == 0 then round + 1 else round
    ensures (if credit == 0 then s else credit) - 1 == next * s - n
  {
    Distribute(s, round);
  }

  lemma {:induction false} SomeWeight(paths: seq<Path>, live: seq<bool>, i: nat, n: nat)
    requires i < n <= |paths| == |live| && live[i] && paths[i].weight > 0
    ensures Weight(paths, live, n) > 0
  {
    if i < n - 1 {
      SomeWeight(paths, live, i, n - 1);
    }
  }

  lemma RoundOfNone(s: nat)
    requires s > 0
    ensures Round(0, s) == 1
  {}

  /** From full credits and with the live paths unchanging: over every whole number of rounds each
      live path is elected exactly its weight per round, and at the end of a round no live credit is
      left; inside a round no path is more than its weight ahead or behind. */
  lemma RotationIsExact(paths: seq<Path>, live: seq<bool>, m: nat, n: nat, i: nat)
    requires Weighted(paths, live) && Full(paths, live) && i < |paths|
    ensures var s := Weight(paths, live, |paths|);
            && Count(Rotate(paths, live, m * s).1, i) == (if live[i] then m * paths[i].weight else 0)
            && (m > 0 && live[i] ==> Rotate(paths, live, m * s).0[i].wCount == 0)
            && (live[i] && m * s <= n <= (m + 1) * s ==>
                  m * paths[i].weight <= Count(Rotate(paths, live, n).1, i) <= (m + 1) * paths[i].weight)
  {
    hide Rotate, Weight, Credit, Count, Round;
    var s := Weight(paths, live, |paths|);
    if live[i] {
      RotationConserves(paths, live, m * s, i);
      RotationConserves(paths, live, n, i);
      EndOfRound(m, s);
      var after := Rotate(paths, live, m * s).0;
      CreditFacts(after, live, |paths|);
      if m == 0 {
        NothingYet(paths, live, i);
      }
      if m * s <= n <= (m + 1) * s {
        WithinRound(m, n, s);
        if n == m * s {
          Distribute(paths[i].weight, m);
        } else {
          CreditStaysBelow(paths, live, n, i);
          Distribute(paths[i].weight, m);
        }
      }
    } else {
      DeadIsNeverElected(paths, live, m * s, i);
    }
  }

  lemma EndOfRound(m: nat, s: nat)
    requires s > 0
    ensures m > 0 ==> Round(m * s, s) == m
  {
    if m > 0 {
      Distribute(s, m - 1);
      Quotient(m * s - 1, m - 1, s - 1, s);
    }
  }

  lemma WithinRound(m: nat, n: nat, s: nat)
    requires s > 0 && m * s <= n <= (m + 1) * s
    ensures m * s < n ==> Round(n, s) == m + 1
  {
    if m * s < n {
      Distribute(s, m);
      Quotient(n - 1, m, n - 1 - m * s, s);
    }
  }

  lemma NothingYet(paths: seq<Path>, live: seq<bool>, i: nat)
    requires Weighted(paths, live)
    ensures Rotate(paths, live, 0) == (paths, []) && Count([], i) == 0
  {}

  lemma {:induction false} CreditStaysBelow(paths: seq<Path>, live: seq<bool>, n: nat, i: nat)
    requires Weighted(paths, live) && i < |paths| && paths[i].wCount <= paths[i].weight
    ensures Rotate(paths, live, n).0[i].wCount <= paths[i].weight
  {
    hide Elect;
    if n > 0 {
      CreditStaysBelow(paths, live, n - 1, i);
    }
  }

  lemma {:induction false} DeadIsNeverElected(paths: seq<Path>, live: seq<bool>, n: nat, i: nat)
    requires Weighted(paths, live) && i < |paths| && !live[i]
    ensures Count(Rotate(paths, live, n).1, i) == 0 && Rotate(paths, live, n).0[i] == paths[i]
  {
    hide Elect;
    if n > 0 {
      DeadIsNeverElected(paths, live, n - 1, i);
      var (before, elected) := Rotate(paths, live, n - 1);
      CountOfMore(elected, Elect(before, live).1.value, i);
    }
  }

  // ---- The rotation against the clock ----

  /** Elections at the given times, each with the paths live at its own time. */
  function RotateAt(paths: seq<Path>, nows: seq<u64>, timeout: i64): (r: (seq<Path>, seq<Option<nat>>))
    ensures |r.0| == |paths| && |r.1| == |nows|
  {
    if nows == [] then (paths, [])
    else
      var last := |nows| - 1;
      var before := RotateAt(paths, nows[..last], timeout);
      var step := Elect(before.0, Mask(before.0, nows[last], timeout));
      (step.0, before.1 + [step.1])
  }

  lemma MaskIgnoresCredit(a: seq<Path>, b: seq<Path>, now: u64, timeout: i64)
    requires |a| == |b| && forall i :: 0 <= i < |a| ==> b[i] == a[i].(wCount := b[i].wCount)
    ensures Mask(a, now, timeout) == Mask(b, now, timeout)
  {}

  function Somes(s: seq<nat>): (r: seq<Option<nat>>)
    ensures |r| == |s|
  {
    if s == [] then [] else Somes(s[..|s| - 1]) + [Some(s[|s| - 1])]
  }

  /** While the same paths are live at every time asked, the elections are the rotation's, so they
      share the load exactly as it does. */
  lemma {:induction false} SteadyLivenessRotates(paths: seq<Path>, nows: seq<u64>, timeout: i64, live: seq<bool>)
    requires Weighted(paths, live)
    requires forall i :: 0 <= i < |nows| ==> Mask(paths, nows[i], timeout) == live
    ensures RotateAt(paths, nows, timeout).0 == Rotate(paths, live, |nows|).0
    ensures RotateAt(paths, nows, timeout).1 == Somes(Rotate(paths, live, |nows|).1)
    decreases |nows|
  {
    hide Elect, Mask;
    if nows != [] {
      var last := |nows| - 1;
      SteadyLivenessRotates(paths, nows[..last], timeout, live);
      var (before, elected) := Rotate(paths, live, last);
      MaskIgnoresCredit(paths, before, nows[last], timeout);
      var k := Elect(before, live).1.value;
      assert (elected + [k])[..last] == elected;
    }
  }

  // ---- Events ----

  function Lookup(paths: seq<Path>, index: byte): (r: Option<nat>)
    ensures r.None? <==> forall i :: 0 <= i < |paths| ==> paths[i].index != index
    ensures r.Some? ==> r.value < |paths| && paths[r.value].index == index
                        && forall i :: 0 <= i < r.value ==> paths[i].index != index
  {
    if paths == [] then None
    else if paths[0].index == index then Some(0)
    else
      match Lookup(paths[1..], index)
      case None => None
      case Some(k) => Some(k + 1)
  }

  function Added(paths: seq<Path>, index: byte, weight: u32, priority: u32, rttMin: i64): seq<Path> {
    if Lookup(paths, index).Some? then paths
    else paths + [Path(index, weight, weight, priority, Rtt.New(rttMin), 0, false, false)]
  }

  function Removed(paths: seq<Path>, index: byte): (r: seq<Path>)
    ensures forall p :: p in r <==> p in paths && p.index != index
  {
    if paths == [] then []
    else (if paths[0].index == index then [] else [paths[0]]) + Removed(paths[1..], index)
  }

  function Observed(paths: seq<Path>, index: byte, now: u64): (r: seq<Path>)
    ensures |r| == |paths|
  {
    match Lookup(paths, index)
    case None => paths
    case Some(k) => paths[k := paths[k].(seen := true, lastSeen := now, dead := false)]
  }

  function Sampled(paths: seq<Path>, index: byte, sample: i64): (r: seq<Path>)
    ensures |r| == |paths|
  {
    match Lookup(paths, index)
    case None => paths
    case Some(k) => paths[k := paths[k].(rtt := paths[k].rtt.Observe(sample))]
  }

  function Reweighed(paths: seq<Path>, index: byte, weight: u32): (r: seq<Path>)
    ensures |r| == |paths|
  {
    match Lookup(paths, index)
    case None => paths
    case Some(k) =>
      var changed := paths[k := paths[k].(weight := weight)];
      seq(|changed|, i requires 0 <= i < |changed| => changed[i].(wCount := changed[i].weight))
  }

  predicate Dies(p: Path, now: u64, timeout: i64) {
    p.seen && !p.dead && Since(now, p.lastSeen) > timeout
  }

  /** Marks the paths that die now, and names them. */
  function Ticked(paths: seq<Path>, now: u64, timeout: i64): (r: (seq<Path>, seq<byte>))
    ensures |r.0| == |paths|
    ensures forall i :: 0 <= i < |paths| ==>
              r.0[i] == if Dies(paths[i], now, timeout) then paths[i].(dead := true) else paths[i]
    ensures forall x :: x in r.1 <==> exists i :: 0 <= i < |paths| && paths[i].index == x && Dies(paths[i], now, timeout)
  {
    if paths == [] then ([], [])
    else
      var last := |paths| - 1;
      var before := Ticked(paths[..last], now, timeout);
      if Dies(paths[last], now, timeout)
      then (before.0 + [paths[last].(dead := true)], before.1 + [paths[last].index])
      else (before.0 + [paths[last]], before.1)
  }

  lemma TickedNone(now: u64, timeout: i64)
    ensures Ticked([], now, timeout) == ([], [])
  {}

  lemma TickedStep(paths: seq<Path>, i: nat, now: u64, timeout: i64)
    requires i < |paths|
    ensures var (before, died) := Ticked(paths[..i], now, timeout);
            Ticked(paths[..i + 1], now, timeout)
            == if Dies(paths[i], now, timeout) then (before + [paths[i].(dead := true)], died + [paths[i].index])
               else (before + [paths[i]], died)
  {
    assert paths[..i + 1][..i] == paths[..i];
  }

  datatype Event =
    | Add(index: byte, weight: u32, priority: u32)
    | Remove(index: byte)
    | Arrival(index: byte, now: u64)
    | RttSample(index: byte, sample: i64)
    | Tick(now: u64)
    | Select(now: u64)
    | SetWeight(index: byte, weight: u32)

  /** The paths after an event, and the deaths it reports. */
  function Handle(paths: seq<Path>, e: Event, timeout: i64, rttMin: i64): (seq<Path>, seq<byte>) {
    match e
    case Add(index, weight, priority) => (Added(paths, index, weight, priority, rttMin), [])
    case Remove(index) => (Removed(paths, index), [])
    case Arrival(index, now) => (Observed(paths, index, now), [])
    case RttSample(index, sample) => (Sampled(paths, index, sample), [])
    case Tick(now) => Ticked(paths, now, timeout)
    case Select(now) => (Elect(paths, Mask(paths, now, timeout)).0, [])
    case SetWeight(index, weight) => (Reweighed(paths, index, weight), [])
  }

  function HandleAll(paths: seq<Path>, events: seq<Event>, timeout: i64, rttMin: i64): seq<Path>
    decreases |events|
  {
    if events == [] then paths
    else HandleAll(Handle(paths, events[0], timeout, rttMin).0, events[1..], timeout, rttMin)
  }

  /** An arrival, a sample or a weight changes its own field of its own path: an arrival marks it heard
      and alive, a sample enters its average, a weight is taken over and every credit made full. */
  lemma EventsTouchTheirPath(paths: seq<Path>, e: Event, timeout: i64, rttMin: i64, i: nat)
    requires ValidPaths(paths) && i < |paths| && (e.Arrival? || e.RttSample? || e.SetWeight?)
    ensures |Handle(paths, e, timeout, rttMin).0| == |paths|
    ensures var p, q := paths[i], Handle(paths, e, timeout, rttMin).0[i];
            var mine := p.index == e.index;
            && q == p.(lastSeen := q.lastSeen, seen := q.seen, dead := q.dead, rtt := q.rtt, weight := q.weight, wCount := q.wCount)
            && (q.lastSeen, q.seen, q.dead) == (if e.Arrival? && mine then (e.now, true, false) else (p.lastSeen, p.seen, p.dead))
            && q.rtt == (if e.RttSample? && mine then p.rtt.Observe(e.sample) else p.rtt)
            && q.weight == (if e.SetWeight? && mine then e.weight else p.weight)
            && q.wCount == (if e.SetWeight? && Lookup(paths, e.index).Some? then q.weight else p.wCount)
  {}

  /** A new path comes last, unheard, alive and with full credit; a known index changes nothing. */
  lemma AddedIsBlank(paths: seq<Path>, index: byte, weight: u32, priority: u32, timeout: i64, rttMin: i64)
    ensures var (after, died) := Handle(paths, Add(index, weight, priority), timeout, rttMin);
            died == [] &&
            if exists i :: 0 <= i < |paths| && paths[i].index == index then after == paths
            else
              && |after| == |paths| + 1 && after[..|paths|] == paths
              && var p := after[|paths|];
                 && p.index == index && p.weight == p.wCount == weight && p.priority == priority && !p.seen && !p.dead
                 && p.lastSeen == 0 && p.rtt == Rtt.New(rttMin)
  {}

  lemma {:induction false} RemovedIsValid(paths: seq<Path>, index: byte)
    requires ValidPaths(paths)
    ensures ValidPaths(Removed(paths, index))
  {
    if paths != [] {
      ValidTail(paths);
      RemovedIsValid(paths[1..], index);
      if paths[0].index != index {
        assert paths[0] in paths;
        PutInFront(paths[0], Removed(paths[1..], index));
      }
    }
  }

  lemma ValidTail(paths: seq<Path>)
    requires ValidPaths(paths) && paths != []
    ensures ValidPaths(paths[1..]) && ValidPaths([paths[0]])
    ensures forall p :: p in paths[1..] ==> p.index != paths[0].index
  {}

  lemma PutInFront(p: Path, rest: seq<Path>)
    requires ValidPaths([p]) && ValidPaths(rest) && forall q :: q in rest ==> q.index != p.index
    ensures ValidPaths([p] + rest)
  {
    var all := [p] + rest;
    assert [p][0] == p;
    forall i | 0 <= i < |all| ensures all[i].wCount <= all[i].weight && (all[i].dead ==> all[i].seen) {
      assert i > 0 ==> all[i] == rest[i - 1];
    }
  }

  lemma HandleKeepsValid(paths: seq<Path>, e: Event, timeout: i64, rttMin: i64)
    requires ValidPaths(paths)
    ensures ValidPaths(Handle(paths, e, timeout, rttMin).0)
  {
    hide Elect, Ticked, Removed, Lookup;
    match e
    case Remove(index) => RemovedIsValid(paths, index);
    case _ =>
  }

  /** In every state that events can reach: indices are unique, no credit exceeds its weight, and
      only seen paths are marked dead. */
  lemma {:induction false} ReachableIsValid(events: seq<Event>, timeout: i64, rttMin: i64, start: seq<Path>)
    requires ValidPaths(start)
    ensures ValidPaths(HandleAll(start, events, timeout, rttMin))
    decreases |events|
  {
    hide Handle, ValidPaths;
    if events != [] {
      HandleKeepsValid(start, events[0], timeout, rttMin);
      ReachableIsValid(events[1..], timeout, rttMin, Handle(start, events[0], timeout, rttMin).0);
    }
  }

  predicate MarkedDead(paths: seq<Path>, index: byte) {
    forall i :: 0 <= i < |paths| && paths[i].index == index ==> paths[i].dead
  }

  predicate Revives(e: Event, index: byte) {
    (e.Arrival? || e.Add?) && e.index == index
  }

  /** A death is reported once: from its report on, until the path is heard again or added anew, no
      event reports it. */
  lemma DeathIsReportedOnce(paths: seq<Path>, e: Event, timeout: i64, rttMin: i64, index: byte)
    requires ValidPaths(paths)
    ensures MarkedDead(paths, index) && !Revives(e, index) ==>
              MarkedDead(Handle(paths, e, timeout, rttMin).0, index) && index !in Handle(paths, e, timeout, rttMin).1
    ensures index in Handle(paths, e, timeout, rttMin).1 ==>
              MarkedDead(Handle(paths, e, timeout, rttMin).0, index) && !MarkedDead(paths, index)
  {
    hide Elect, Ticked, Removed, Lookup;
    if e.Remove? {
      var after := Removed(paths, e.index);
      if MarkedDead(paths, index) {
        forall i | 0 <= i < |after| && after[i].index == index ensures after[i].dead {
          assert after[i] in after;
        }
      }
    }
  }

  /** Every death reported in a run, event by event. */
  function Reports(paths: seq<Path>, events: seq<Event>, timeout: i64, rttMin: i64): seq<byte>
    decreases |events|
  {
    if events == [] then []
    else
      var (next, died) := Handle(paths, events[0], timeout, rttMin);
      died + Reports(next, events[1..], timeout, rttMin)
  }

  /** And none is left out: whatever the event at any point of a run reports is in the run's reports. */
  lemma {:induction false} NoDeathIsLost(paths: seq<Path>, events: seq<Event>, timeout: i64, rttMin: i64, i: nat)
    requires i < |events|
    ensures forall x :: x in Handle(HandleAll(paths, events[..i], timeout, rttMin), events[i], timeout, rttMin).1 ==>
              x in Reports(paths, events, timeout, rttMin)
    decreases i
  {
    hide Handle;
    if i > 0 {
      assert events[..i][1..] == events[1..][..i - 1] && events[..i][0] == events[0];
      NoDeathIsLost(Handle(paths, events[0], timeout, rttMin).0, events[1..], timeout, rttMin, i - 1);
    }
  }

  lemma {:induction false} SilentAfterDeath(paths: seq<Path>, events: seq<Event>, timeout: i64, rttMin: i64, index: byte)
    requires ValidPaths(paths) && MarkedDead(paths, index)
    requires forall i :: 0 <= i < |events| ==> !Revives(events[i], index)
    ensures index !in Reports(paths, events, timeout, rttMin)
    decreases |events|
  {
    hide Handle, ValidPaths, MarkedDead;
    if events != [] {
      DeathIsReportedOnce(paths, events[0], timeout, rttMin, index);
      HandleKeepsValid(paths, events[0], timeout, rttMin);
      SilentAfterDeath(Handle(paths, events[0], timeout, rttMin).0, events[1..], timeout, rttMin, index);
    }
  }

  /** A change of weight restarts the round: whatever is live, every credit is full again. */
  lemma RestartIsFull(paths: seq<Path>, index: byte, weight: u32, live: seq<bool>)
    requires |live| == |paths| && exists i :: 0 <= i < |paths| && paths[i].index == index
    ensures Full(Reweighed(paths, index, weight), live)
  {
    assert Lookup(paths, index).Some?;
  }

  // ---- Targets ----

  predicate IsTarget(p: Path, now: u64, horizon: i64) {
    p.weight == WEIGHT_DUPLICATE && !Silent(p, now, horizon)
  }

  function Targets(paths: seq<Path>, now: u64, horizon: i64): (r: seq<byte>)
    ensures forall x :: x in r <==>
              exists i :: 0 <= i < |paths| && paths[i].index == x && IsTarget(paths[i], now, horizon)
  {
    if paths == [] then []
    else
      var last := |paths| - 1;
      Targets(paths[..last], now, horizon)
      + if IsTarget(paths[last], now, horizon) then [paths[last].index] else []
  }

  /** The elected path is weighted and not proven dead, so it is never a duplicate target as well;
      and one is elected exactly when there is such a path. */
  lemma ElectedIsNoTarget(paths: seq<Path>, now: u64, timeout: i64, horizon: i64)
    requires ValidPaths(paths)
    ensures var r := Elect(paths, Mask(paths, now, timeout)).1;
            && (r.Some? <==> exists i :: 0 <= i < |paths| && paths[i].weight > 0 && !Silent(paths[i], now, timeout))
            && (r.Some? ==> paths[r.value].weight > 0 && !Silent(paths[r.value], now, timeout)
                            && paths[r.value].index !in Targets(paths, now, horizon))
  {
    hide Elect, Targets, Silent;
  }

  /** Every path that is not proven dead carries data: weighted ones by election, the others always. */
  lemma NobodyLeftOut(paths: seq<Path>, now: u64, timeout: i64, horizon: i64)
    requires timeout <= horizon
    ensures forall i :: 0 <= i < |paths| && !Silent(paths[i], now, timeout) ==>
              Mask(paths, now, timeout)[i] || paths[i].index in Targets(paths, now, horizon)
  {
    hide Targets, Mask;
  }

  // ---- The NACK path ----

  predicate Live(p: Path, now: u64, timeout: i64) {
    p.seen && Since(now, p.lastSeen) <= timeout
  }

  function NackRtt(p: Path, rttMin: i64, rttMax: i64): int
    requires Rtt.EffectiveMin(rttMin) <= rttMax
  {
    p.rtt.LastClamped(rttMin, rttMax)
  }

  predicate Preferred(cand: Path, best: Path, rttMin: i64, rttMax: i64)
    requires Rtt.EffectiveMin(rttMin) <= rttMax
  {
    cand.priority > best.priority
    || (cand.priority == best.priority && NackRtt(cand, rttMin, rttMax) < NackRtt(best, rttMin, rttMax))
  }

  class Group {
    var paths: seq<Path>
    const timeout: i64
    const dupGrace: i64
    const rttMin: i64
    const rttMax: i64

    ghost predicate Valid()
      reads this
    {
      ValidPaths(paths) && Rtt.EffectiveMin(rttMin) <= rttMax
    }

    constructor (timeout: i64, dupGrace: i64, rttMin: i64, rttMax: i64)
      requires Rtt.EffectiveMin(rttMin) <= rttMax
      ensures Valid() && paths == []
      ensures this.timeout == timeout && this.dupGrace == dupGrace && this.rttMin == rttMin && this.rttMax == rttMax
    {
      paths := [];
      this.timeout, this.dupGrace, this.rttMin, this.rttMax := timeout, dupGrace, rttMin, rttMax;
    }

    method AddPath(index: byte, weight: u32, priority: u32)
      requires Valid()
      modifies this
      ensures Valid() && paths == Handle(old(paths), Add(index, weight, priority), timeout, rttMin).0
    {
      HandleKeepsValid(paths, Add(index, weight, priority), timeout, rttMin);
      if exists i :: 0 <= i < |paths| && paths[i].index == index {
        return;
      }
      paths := paths + [Path(index, weight, weight, priority, Rtt.New(rttMin), 0, false, false)];
    }

    method RemovePath(index: byte) returns (removed: bool)
      requires Valid()
      modifies this
      ensures Valid() && paths == Handle(old(paths), Remove(index), timeout, rttMin).0
      ensures removed <==> |paths| != |old(paths)|
    {
      HandleKeepsValid(paths, Remove(index), timeout, rttMin);
      var before := |paths|;
      paths := Removed(paths, index);
      removed := |paths| != before;
    }

    method Observe(index: byte, now: u64)
      requires Valid()
      modifies this
      ensures Valid() && paths == Handle(old(paths), Arrival(index, now), timeout, rttMin).0
    {
      HandleKeepsValid(paths, Arrival(index, now), timeout, rttMin);
      var k := Lookup(paths, index);
      if k.Some? {
        paths := paths[k.value := paths[k.value].(seen := true, lastSeen := now, dead := false)];
      }
    }

    method ObserveRtt(index: byte, sample: i64)
      requires Valid()
      modifies this
      ensures Valid() && paths == Handle(old(paths), RttSample(index, sample), timeout, rttMin).0
    {
      HandleKeepsValid(paths, RttSample(index, sample), timeout, rttMin);
      var k := Lookup(paths, index);
      if k.Some? {
        paths := paths[k.value := paths[k.value].(rtt := paths[k.value].rtt.Observe(sample))];
      }
    }

    method TickAt(now: u64) returns (died: seq<byte>)
      requires Valid()
      modifies this
      ensures Valid() && (paths, died) == Handle(old(paths), Tick(now), timeout, rttMin)
    {
      hide Ticked, ValidPaths, Dies;
      HandleKeepsValid(paths, Tick(now), timeout, rttMin);
      died := [];
      ghost var was := paths;
      TickedNone(now, timeout);
      for i := 0 to |paths|
        invariant |paths| == |was|
        invariant (paths[..i], died) == Ticked(was[..i], now, timeout)
        invariant paths[i..] == was[i..]
      {
        assert was[i] == was[i..][0] == paths[i];
        TickedStep(was, i, now, timeout);
        if DiesNow(paths[i], now) {
          died := died + [paths[i].index];
          paths := paths[i := paths[i].(dead := true)];
        }
        assert paths[..i + 1] == paths[..i] + [paths[i]];
      }
      assert paths[..|paths|] == paths && was[..|was|] == was;
    }

    predicate DiesNow(p: Path, now: u64)
      ensures DiesNow(p, now) == Dies(p, now, timeout)
    {
      p.seen && !p.dead && Since(now, p.lastSeen) > timeout
    }

    method SetWeightOf(index: byte, weight: u32)
      requires Valid()
      modifies this
      ensures Valid() && paths == Handle(old(paths), SetWeight(index, weight), timeout, rttMin).0
    {
      HandleKeepsValid(paths, SetWeight(index, weight), timeout, rttMin);
      var k := Lookup(paths, index);
      if k.None? {
        return;
      }
      ghost var want := Reweighed(paths, index, weight);
      paths := paths[k.value := paths[k.value].(weight := weight)];
      ghost var changed := paths;
      for i := 0 to |paths|
        invariant |paths| == |changed| == |want|
        invariant forall j :: 0 <= j < i ==> paths[j] == want[j]
        invariant forall j :: i <= j < |paths| ==> paths[j] == changed[j]
      {
        paths := paths[i := paths[i].(wCount := paths[i].weight)];
      }
      assert paths == want;
    }

    method BestWeighted(now: u64) returns (best: Option<nat>)
      ensures best == Best(paths, Mask(paths, now, timeout), |paths|)
    {
      hide Best, Mask, Silent;
      best := None;
      ghost var live := Mask(paths, now, timeout);
      NoneYet(paths, live);
      for i := 0 to |paths|
        invariant best == Best(paths, live, i)
      {
        BestStep(paths, live, i);
        var p := paths[i];
        if !(p.weight == 0 || Silent(p, now, timeout)) && (best.None? || p.wCount > paths[best.value].wCount) {
          best := Some(i);
        }
      }
    }

    method SelectWeighted(now: u64) returns (r: Option<byte>)
      requires Valid()
      modifies this
      ensures Valid() && paths == Handle(old(paths), Select(now), timeout, rttMin).0
      ensures var k := Elect(old(paths), Mask(old(paths), now, timeout)).1;
              r == if k.None? then None else Some(old(paths)[k.value].index)
    {
      hide Best, Refilled, Spent, Elect, Election, ValidPaths, Mask, Silent;
      HandleKeepsValid(paths, Select(now), timeout, rttMin);
      ghost var live := Mask(paths, now, timeout);
      ElectIsElection(paths, live);
      r := None;
      if exists i :: 0 <= i < |paths| && paths[i].weight > 0 {
        var best := BestWeighted(now);
        if best.Some? && paths[best.value].wCount == 0 {
          assert Exhausted(paths, live);
          Refill(now);
          MaskIgnoresCredit(old(paths), paths, now, timeout);
          best := BestWeighted(now);
        }
        assert paths == if Exhausted(old(paths), live) then Refilled(old(paths), live) else old(paths);
        r := Spend(best, live);
      }
    }

    method Spend(best: Option<nat>, ghost live: seq<bool>) returns (r: Option<byte>)
      requires |live| == |paths| && best == Best(paths, live, |paths|)
      modifies this
      ensures var (after, k) := Election(old(paths), live);
              paths == after && r == if k.None? then None else Some(old(paths)[k.value].index)
    {
      if best.None? {
        return None;
      }
      r := Some(paths[best.value].index);
      paths := Spent(paths, best.value);
    }

    method Refill(now: u64)
      modifies this
      ensures paths == Refilled(old(paths), Mask(old(paths), now, timeout))
    {
      ghost var was, live := paths, Mask(paths, now, timeout);
      ghost var want := Refilled(was, live);
      for i := 0 to |paths|
        invariant |paths| == |was|
        invariant forall j :: 0 <= j < i ==> paths[j] == want[j]
        invariant forall j :: i <= j < |paths| ==> paths[j] == was[j]
      {
        var p := paths[i];
        if p.weight > 0 && !(p.seen && Since(now, p.lastSeen) > timeout) {
          paths := paths[i := p.(wCount := p.weight)];
        }
      }
      assert paths == want;
    }

    method DuplicateTargets(now: u64) returns (r: seq<byte>)
      ensures r == Targets(paths, now, SaturateI64(timeout + dupGrace))
    {
      r := [];
      for i := 0 to |paths|
        invariant r == Targets(paths[..i], now, SaturateI64(timeout + dupGrace))
      {
        assert paths[..i + 1][..i] == paths[..i];
        var p := paths[i];
        if p.weight == WEIGHT_DUPLICATE && !(p.seen && Since(now, p.lastSeen) > SaturateI64(timeout + dupGrace)) {
          r := r + [p.index];
        }
      }
      assert paths[..|paths|] == paths;
    }

    /** The NACK goes to the live, addressable path of highest priority, then lowest last RTT, then
        earliest; with none live to the addressable path heard from last; with none heard, nowhere. */
    method SelectNackPath(now: u64, known: set<byte>) returns (r: Option<byte>)
      requires Valid()
      ensures r.None? <==> forall i :: 0 <= i < |paths| && paths[i].index in known ==> !paths[i].seen
      ensures r.Some? ==> exists k :: 0 <= k < |paths| && paths[k].index == r.value && IsNackPath(k, now, known)
    {
      SamplesAre();
      var best: Option<nat> := None;
      for i := 0 to |paths|
        invariant best.None? ==> forall j :: 0 <= j < i ==> !Reachable(j, now, known)
        invariant best.Some? ==> best.value < i && Foremost(best.value, i, now, known)
      {
        var p := paths[i];
        if p.seen && Since(now, p.lastSeen) <= timeout && p.index in known {
          if best.None? || Preferred(p, paths[best.value], rttMin, rttMax) {
            best := Some(i);
          }
        }
      }
      if best.Some? {
        assert IsNackPath(best.value, now, known);
        return Some(paths[best.value].index);
      }
      for i := 0 to |paths|
        invariant best.None? ==> forall j :: 0 <= j < i && paths[j].index in known ==> !paths[j].seen
        invariant best.Some? ==> best.value < i && Latest(best.value, i, known)
      {
        var p := paths[i];
        if p.seen && p.index in known {
          if best.None? || p.lastSeen > paths[best.value].lastSeen {
            best := Some(i);
          }
        }
      }
      if best.Some? {
        assert IsNackPath(best.value, now, known);
        return Some(paths[best.value].index);
      }
      return None;
    }

    predicate Reachable(i: nat, now: u64, known: set<byte>)
      requires i < |paths|
      reads this
    {
      Live(paths[i], now, timeout) && paths[i].index in known
    }

    /** The last sample of a path, between the floor of 3000 (or `rttMin`, if higher) and `rttMax`. */
    function LastSample(i: nat): int
      requires i < |paths|
      reads this
    {
      var sample, floor := paths[i].rtt.lastSample, if rttMin > 3000 then rttMin else 3000;
      if sample > rttMax then rttMax else if sample < floor then floor else sample
    }

    /** Position `k` is chosen among the first `n`: none of them has a higher priority, none of its
        own priority a smaller last sample, and none that is like it in both comes earlier. */
    predicate Foremost(k: nat, n: nat, now: u64, known: set<byte>)
      requires k < n <= |paths|
      reads this
    {
      && Reachable(k, now, known)
      && forall j :: 0 <= j < n && Reachable(j, now, known) ==>
           && paths[j].priority <= paths[k].priority
           && (paths[j].priority == paths[k].priority ==>
                 && LastSample(k) <= LastSample(j)
                 && (LastSample(j) == LastSample(k) ==> k <= j))
    }

    /** What the ordering compares at equal priority. */
    lemma SamplesAre()
      requires Rtt.EffectiveMin(rttMin) <= rttMax
      ensures forall i :: 0 <= i < |paths| ==> NackRtt(paths[i], rttMin, rttMax) == LastSample(i)
    {}

    predicate Latest(k: nat, n: nat, known: set<byte>)
      requires k < n <= |paths|
      reads this
    {
      && paths[k].seen && paths[k].index in known
      && (forall j :: 0 <= j < n && paths[j].seen && paths[j].index in known ==> paths[j].lastSeen <= paths[k].lastSeen)
      && (forall j :: 0 <= j < k && paths[j].seen && paths[j].index in known ==> paths[j].lastSeen < paths[k].lastSeen)
    }

    predicate IsNackPath(k: nat, now: u64, known: set<byte>)
      requires k < |paths|
      reads this
    {
      if exists j :: 0 <= j < |paths| && Reachable(j, now, known) then Foremost(k, |paths|, now, known)
      else Latest(k, |paths|, known)
    }
  }
}
