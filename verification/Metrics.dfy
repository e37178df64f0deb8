/** Round-trip statistics: an integer moving average and a maximum kept by compare-and-swap. */
module Metrics {
  import opened Bits

  const U32_MAX: word := 0xFFFF_FFFF

  function Clamp(x: nat): word {
    if x < U32_MAX then x else U32_MAX
  }

  // ---------- the moving average ----------

  /** The average before clamping: the first sample as it is, then four parts old to one part new. */
  function Average(previous: word, v: word): nat {
    if previous == 0 then v else (previous * 4 + v) / 5
  }

  datatype Stats = Stats(last: word, ewma: word, max: word)

  const ZERO := Stats(0, 0, 0)

  /** One uninterrupted `note_rtt`. */
  function Note(s: Stats, micros: nat): Stats {
    var v := Clamp(micros);
    Stats(v, Clamp(Average(s.ewma, v)), if v > s.max then v else s.max)
  }

  function NoteAll(samples: seq<nat>): Stats {
    if samples == [] then ZERO else Note(NoteAll(samples[..|samples| - 1]), samples[|samples| - 1])
  }

  /**
   One sample more: it is kept, cut to 32 bits; the average is that very sample if there was none, or only zero, and
   else weighs the sample a fifth; the maximum is the larger of the two.
   */
  lemma {:induction false} NextSample(samples: seq<nat>, x: nat)
    ensures var before, after := NoteAll(samples), NoteAll(samples + [x]);
            var v := if x < 0xFFFF_FFFF then x else 0xFFFF_FFFF;
            && after.last == v
            && (before.ewma == 0 ==> after.ewma == v)
            && (before.ewma != 0 ==> 5 * after.ewma <= 4 * before.ewma + v < 5 * after.ewma + 5)
            && after.max >= before.max && after.max >= v && (after.max == before.max || after.max == v)
    ensures NoteAll([]) == Stats(0, 0, 0)
  {
    assert (samples + [x])[..|samples|] == samples;
    ClampIdle(NoteAll(samples).ewma, Clamp(x));
  }

  /** The u32 clamp on the average never bites: an average of words is a word. */
  lemma ClampIdle(previous: word, v: word)
    ensures Average(previous, v) <= if previous < v then v else previous
    ensures Clamp(Average(previous, v)) == Average(previous, v)
  {}

  /** Over any samples, the average stays below the recorded maximum, which is the largest sample. */
  lemma {:induction false} AverageBelowMaximum(samples: seq<nat>)
    ensures var s := NoteAll(samples);
            && s.ewma <= s.max
            && (forall i :: 0 <= i < |samples| ==> Clamp(samples[i]) <= s.max)
            && (samples != [] ==> exists i :: 0 <= i < |samples| && Clamp(samples[i]) == s.max)
  {
    if samples == [] {
    } else {
      var n := |samples| - 1;
      AverageBelowMaximum(samples[..n]);
      var before := NoteAll(samples[..n]);
      ClampIdle(before.ewma, Clamp(samples[n]));
      if Clamp(samples[n]) <= before.max && n > 0 {
        var i :| 0 <= i < n && Clamp(samples[..n][i]) == before.max;
        assert samples[i] == samples[..n][i];
      }
      forall i | 0 <= i < |samples| ensures Clamp(samples[i]) <= NoteAll(samples).max {
        if i < n {
          assert samples[..n][i] == samples[i];
        }
      }
    }
  }

  /** `n` samples of the same value. */
  function Settle(ewma: word, v: word, n: nat): word
    decreases n
  {
    if n == 0 then ewma else Settle(Clamp(Average(ewma, v)), v, n - 1)
  }

  /** The distance from a value below: a fifth of it, rounded down, is closed each time. */
  lemma GapShrinks(ewma: word, v: word)
    requires 0 < ewma <= v
    ensures var next := Clamp(Average(ewma, v));
            && ewma <= next <= v
            && v - next == (4 * (v - ewma) + 4) / 5
            && (v - ewma > 4 ==> v - next < v - ewma)
            && (v - ewma <= 4 ==> next == ewma)
  {}

  /** From above each sample strictly lowers the average, never past the sample. */
  lemma FallsStrictly(ewma: word, v: word)
    requires v < ewma
    ensures var next := Clamp(Average(ewma, v));
            v <= next < ewma && next - v == 4 * (ewma - v) / 5
  {}

  /** From above the average reaches the constant sample exactly, and stays. */
  lemma {:induction false} SettlesFromAbove(ewma: word, v: word, n: nat)
    requires v <= ewma && n >= ewma - v
    ensures Settle(ewma, v, n) == v
    decreases n
  {
    if n == 0 {
    } else {
      var next := Clamp(Average(ewma, v));
      if ewma > v {
        FallsStrictly(ewma, v);
      } else {
        assert Average(v, v) == v;
      }
      SettlesFromAbove(next, v, n - 1);
    }
  }

  /**
   From a value below it never overshoots and settles within four of the sample.
   */
  lemma {:induction false} SettlesFromBelow(ewma: word, v: word, n: nat)
    requires ewma <= v && n >= v - ewma
    ensures v - 4 <= Settle(ewma, v, n) <= v
    decreases n
  {
    if n == 0 {
    } else {
      var next := Clamp(Average(ewma, v));
      if ewma > 0 {
        GapShrinks(ewma, v);
        if v - ewma <= 4 {
          StaysPut(ewma, v, n);
        } else {
          SettlesFromBelow(next, v, n - 1);
        }
      } else {
        SettlesFromAbove(v, v, n - 1);
      }
    }
  }

  /** From zero it is there at once. */
  lemma {:induction false} SettlesFromZero(v: word, n: nat)
    requires n > 0
    ensures Settle(0, v, n) == v
  {
    assert Clamp(Average(0, v)) == v;
    SettlesFromAbove(v, v, n - 1);
  }

  lemma {:induction false} StaysPut(ewma: word, v: word, n: nat)
    requires Clamp(Average(ewma, v)) == ewma
    ensures Settle(ewma, v, n) == ewma
    decreases n
  {
    if n == 0 {
    } else {
      StaysPut(ewma, v, n - 1);
    }
  }

  /** It need not get any closer: four below is a fixed point. */
  lemma FourBelowStays(v: word)
    requires v > 4
    ensures Clamp(Average(v - 4, v)) == v - 4
  {}

  /** The statistics as shared variables, with `note_rtt` running alone. */
  class Shared {
    var last: word
    var ewma: word
    var max: word

    constructor ()
      ensures State() == ZERO
    {
      last, ewma, max := 0, 0, 0;
    }

    ghost function State(): Stats
      reads this
    {
      Stats(last, ewma, max)
    }

    /** Succeeds only if the variable still holds `expected`, and may fail even so. */
    method CompareExchangeWeak(expected: word, desired: word, spurious: bool) returns (ok: bool, actual: word)
      modifies this`max
      ensures ok <==> old(max) == expected && !spurious
      ensures max == if ok then desired else old(max)
      ensures actual == old(max)
    {
      actual := max;
      ok := actual == expected && !spurious;
      if ok {
        max := desired;
      }
    }

    /** The loop ends after however many spurious failures; `failures` bounds them. */
    method NoteRtt(micros: nat, failures: nat)
      modifies this
      ensures State() == Note(old(State()), micros)
    {
      var v := Clamp(micros);
      last := v;
      var sample: nat, previous: nat := v, ewma;
      var avg: nat := if previous == 0 then sample else (previous * 4 + sample) / 5;
      ewma := Clamp(avg);
      var cur := max;
      var left := failures;
      while v > cur
        invariant cur == max == old(max) && last == v && ewma == Clamp(avg)
        decreases left, v > cur
      {
        var spurious := left > 0;
        var ok, actual := CompareExchangeWeak(cur, v, spurious);
        if ok {
          break;
        }
        left := left - 1;
        cur := actual;
      }
    }
  }

  // ---------- concurrent callers ----------

  /** Where a caller is: which of its loads and stores it has done, and what it then holds; or returned. */
  datatype Pc = Start | Entered | Averaged(avg: word) | Stored | Loaded(cur: word) | Done

  datatype Thread = Thread(v: word, pc: Pc)

  /** The shared variables and any number of callers. */
  datatype System = System(stats: Stats, threads: seq<Thread>)

  predicate Initial(s: System) {
    s.stats == ZERO && forall i :: 0 <= i < |s.threads| ==> s.threads[i].pc == Start
  }

  /** One atomic step of caller `i`; `spurious` is whether a compare-and-swap fails for no reason. */
  function StepThread(s: System, i: nat, spurious: bool): (s': System)
    requires i < |s.threads|
    ensures |s'.threads| == |s.threads|
  {
    var t := s.threads[i];
    match t.pc
    case Start => System(s.stats.(last := t.v), s.threads[i := t.(pc := Entered)])
    case Entered => s.(threads := s.threads[i := t.(pc := Averaged(Clamp(Average(s.stats.ewma, t.v))))])
    case Averaged(avg) => System(s.stats.(ewma := avg), s.threads[i := t.(pc := Stored)])
    case Stored => s.(threads := s.threads[i := t.(pc := Loaded(s.stats.max))])
    case Loaded(cur) =>
      if t.v <= cur then s.(threads := s.threads[i := t.(pc := Done)])
      else if s.stats.max == cur && !spurious then System(s.stats.(max := t.v), s.threads[i := t.(pc := Done)])
      else s.(threads := s.threads[i := t.(pc := Loaded(s.stats.max))])
    case Done => s
  }

  /** A schedule: who steps, and whether a swap fails spuriously. */
  function RunSchedule(s: System, schedule: seq<(nat, bool)>): System
    requires forall k :: 0 <= k < |schedule| ==> schedule[k].0 < |s.threads|
    ensures |RunSchedule(s, schedule).threads| == |s.threads|
    decreases |schedule|
  {
    if schedule == [] then s else RunSchedule(StepThread(s, schedule[0].0, schedule[0].1), schedule[1..])
  }

  /** A caller that nobody interrupts does in its five steps what `note_rtt` does alone. */
  lemma {:induction false} UninterruptedIsNote(s: System, i: nat)
    requires i < |s.threads| && s.threads[i].pc == Start
    ensures var s' := RunSchedule(s, [(i, false), (i, false), (i, false), (i, false), (i, false)]);
            s'.stats == Note(s.stats, s.threads[i].v) && s'.threads[i].pc == Done
  {
    hide Average;
    var n: (nat, bool), none: seq<(nat, bool)> := (i, false), [];
    var s1 := StepThread(s, i, false);
    var s2 := StepThread(s1, i, false);
    var s3 := StepThread(s2, i, false);
    var s4 := StepThread(s3, i, false);
    var s5 := StepThread(s4, i, false);
    assert RunSchedule(s5, none) == s5;
    assert [n][1..] == none && [n, n][1..] == [n] && [n, n, n][1..] == [n, n] && [n, n, n, n][1..] == [n, n, n];
    assert [n, n, n, n, n][1..] == [n, n, n, n];
    assert RunSchedule(s4, [n]) == s5;
    assert RunSchedule(s3, [n, n]) == s5;
    assert RunSchedule(s2, [n, n, n]) == s5;
    assert RunSchedule(s1, [n, n, n, n]) == s5;
    assert RunSchedule(s, [n, n, n, n, n]) == s5;
  }

  /** However a caller got to the swap, two steps of its own that nothing spoils finish it, with the maximum raised. */
  lemma {:induction false} SwapFinishes(s: System, i: nat)
    requires i < |s.threads| && s.threads[i].pc.Loaded? && s.threads[i].pc.cur <= s.stats.max
    ensures var s' := StepThread(StepThread(s, i, false), i, false);
            && s'.threads[i] == s.threads[i].(pc := Done) && s'.stats == s.stats.(max := s'.stats.max)
            && s'.stats.max == if s.threads[i].v > s.stats.max then s.threads[i].v else s.stats.max
  {}

  /** `x` is at most the maximum, or at most the sample of a caller on its way to raise it. */
  predicate Covered(s: System, x: word) {
    x <= s.stats.max || exists i :: 0 <= i < |s.threads| && s.threads[i].pc != Start && x <= s.threads[i].v
  }

  /** `x` is nothing or a caller's sample. */
  predicate Sampled(s: System, x: word) {
    x == 0 || exists i :: 0 <= i < |s.threads| && s.threads[i].v == x
  }

  /**
   Last and maximum are nothing or a caller's sample; what a caller saw of the maximum is no more than it; who
   returned is covered by it; and every average, stored or about to be, is covered.
   */
  predicate Invariant(s: System) {
    && Sampled(s, s.stats.last) && Sampled(s, s.stats.max)
    && Covered(s, s.stats.ewma)
    && forall i :: 0 <= i < |s.threads| ==>
         match s.threads[i].pc
         case Averaged(avg) => Covered(s, avg)
         case Loaded(cur) => cur <= s.stats.max
         case Done => s.threads[i].v <= s.stats.max
         case _ => true
  }

  /** From `s` to `s'` samples stay, the maximum only grows, and nobody goes back to the start. */
  predicate Onward(s: System, s': System) {
    && |s'.threads| == |s.threads| && s.stats.max <= s'.stats.max
    && forall j :: 0 <= j < |s.threads| ==>
         s'.threads[j].v == s.threads[j].v && (s.threads[j].pc != Start ==> s'.threads[j].pc != Start)
  }

  lemma StillCovered(s: System, s': System, x: word)
    requires Onward(s, s') && Covered(s, x)
    ensures Covered(s', x)
  {
    if x > s'.stats.max {
      var i :| 0 <= i < |s.threads| && s.threads[i].pc != Start && x <= s.threads[i].v;
      assert s'.threads[i].pc != Start && x <= s'.threads[i].v;
    }
  }

  lemma StillSampled(s: System, s': System, x: word)
    requires Onward(s, s') && Sampled(s, x)
    ensures Sampled(s', x)
  {
    if x != 0 {
      var i :| 0 <= i < |s.threads| && s.threads[i].v == x;
      assert s'.threads[i].v == x;
    }
  }

  /** A new average lies between the old one and the caller's sample. */
  lemma NewAverageCovered(s: System, i: nat)
    requires i < |s.threads| && s.threads[i].pc == Entered && Covered(s, s.stats.ewma)
    ensures Covered(s, Clamp(Average(s.stats.ewma, s.threads[i].v)))
  {
    var avg := Clamp(Average(s.stats.ewma, s.threads[i].v));
    ClampIdle(s.stats.ewma, s.threads[i].v);
    if avg > s.stats.max && avg <= s.stats.ewma {
      var k :| 0 <= k < |s.threads| && s.threads[k].pc != Start && s.stats.ewma <= s.threads[k].v;
      assert s.threads[k].pc != Start && avg <= s.threads[k].v;
    }
  }

  lemma {:induction false} StepKeeps(s: System, i: nat, spurious: bool)
    requires i < |s.threads| && Invariant(s)
    ensures var s' := StepThread(s, i, spurious);
            Invariant(s') && Onward(s, s')
  {
    hide Covered, Sampled, Clamp, Average;
    var s' := StepThread(s, i, spurious);
    var t := s.threads[i];
    assert Onward(s, s');
    StillCovered(s, s', s.stats.ewma);
    StillSampled(s, s', s.stats.last);
    StillSampled(s, s', s.stats.max);
    CallerIsSample(s', i);
    if t.pc == Entered {
      NewAverageCovered(s, i);
      StillCovered(s, s', Clamp(Average(s.stats.ewma, t.v)));
    }
    forall j | 0 <= j < |s.threads| && s.threads[j].pc.Averaged?
      ensures Covered(s', s.threads[j].pc.avg)
    {
      StillCovered(s, s', s.threads[j].pc.avg);
    }
  }

  lemma CallerIsSample(s: System, i: nat)
    requires i < |s.threads|
    ensures Sampled(s, s.threads[i].v)
  {}

  /**
   Every interleaving of any number of callers, spurious failures included: the maximum only grows, is always
   nothing or some caller's sample, and covers every caller that has returned.
   */
  lemma {:induction false} EveryInterleaving(s: System, schedule: seq<(nat, bool)>)
    requires Invariant(s)
    requires forall k :: 0 <= k < |schedule| ==> schedule[k].0 < |s.threads|
    ensures var s' := RunSchedule(s, schedule);
            Invariant(s') && Onward(s, s')
    decreases |schedule|
  {
    hide Invariant;
    if schedule == [] {
    } else {
      StepKeeps(s, schedule[0].0, schedule[0].1);
      EveryInterleaving(StepThread(s, schedule[0].0, schedule[0].1), schedule[1..]);
    }
  }

  /** Once everyone has returned, the maximum is exactly the largest sample, and the average is at most that. */
  lemma {:induction false} FinalStatistics(s: System, schedule: seq<(nat, bool)>)
    requires Initial(s) && s.threads != []
    requires forall k :: 0 <= k < |schedule| ==> schedule[k].0 < |s.threads|
    requires forall i :: 0 <= i < |s.threads| ==> RunSchedule(s, schedule).threads[i].pc == Done
    ensures var final := RunSchedule(s, schedule).stats;
            && (forall i :: 0 <= i < |s.threads| ==> s.threads[i].v <= final.max)
            && (exists i :: 0 <= i < |s.threads| && s.threads[i].v == final.max)
            && final.ewma <= final.max
  {
    EveryInterleaving(s, schedule);
    var s' := RunSchedule(s, schedule);
    assert s'.threads[0].pc == Done && s'.threads[0].v <= s'.stats.max;
    assert Covered(s', s'.stats.ewma);
    if s'.stats.max == 0 {
      assert s.threads[0].v == s'.stats.max;
    } else {
      var i :| 0 <= i < |s'.threads| && s'.threads[i].v == s'.stats.max;
      assert s.threads[i].v == s'.stats.max;
    }
  }
}
