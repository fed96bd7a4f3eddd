/** Greedy generalisation of rules by intersecting antecedents
    (`merge_rules`, functionalities.py:81-126). */
module Merging {
  import opened RuleModel
  import opened Metrics

  /** One accepted generalisation: the antecedents of the two rules combined
      and the intersection that was queued in their place. */
  datatype MergeEvent = MergeEvent(left: Antecedent, right: Antecedent, result: Antecedent)

  /** The intersections a run accepted. */
  function Results(log: seq<MergeEvent>): set<Antecedent> {
    set e | e in log :: e.result
  }

  /** The intersection of `a` and `b` is not worth queueing: it is empty, it was
      already seen, or it misses a threshold. */
  predicate Blocked(a: Antecedent, b: Antecedent, seen: set<Antecedent>, data: Dataset,
                    minSupport: real, minConfidence: real)
    requires |data| > 0
  {
    var m := a * b;
    m == {} || m in seen || !MeetsThresholds(Evaluate(m, data), minSupport, minConfidence)
  }

  /** The intersection was a legal generalisation when it was accepted. */
  predicate Accepted(e: MergeEvent, data: Dataset, minSupport: real, minConfidence: real)
    requires |data| > 0
  {
    && e.result == e.left * e.right
    && e.result != {}
    && MeetsThresholds(Evaluate(e.result, data), minSupport, minConfidence)
  }

  /** Every parent of an accepted intersection is an input antecedent or an
      intersection accepted before it. */
  predicate WellFounded(rules: seq<Rule>, log: seq<MergeEvent>) {
    forall k :: 0 <= k < |log| ==>
      && log[k].left in Antecedents(rules) + Results(log[..k])
      && log[k].right in Antecedents(rules) + Results(log[..k])
  }

  /** Blocking only depends on the pair, not on its order. */
  lemma BlockedSymmetric(a: Antecedent, b: Antecedent, seen: set<Antecedent>, data: Dataset,
                         minSupport: real, minConfidence: real)
    requires |data| > 0
    ensures Blocked(a, b, seen, data, minSupport, minConfidence)
            == Blocked(b, a, seen, data, minSupport, minConfidence)
  {
    assert a * b == b * a;
  }

  /** Every queued rule is an input record or was built from an accepted intersection. */
  predicate QueueOrigin(rules: seq<Rule>, queue: seq<Rule>, log: seq<MergeEvent>) {
    forall r :: r in queue ==> r in rules || r.ant in Results(log)
  }

  /** Only input records are emitted, no antecedent twice. */
  predicate EmittedFromInput(rules: seq<Rule>, final: seq<Rule>) {
    && (forall k :: 0 <= k < |final| ==> final[k] in rules)
    && (forall k, l :: 0 <= k < l < |final| ==> final[k].ant != final[l].ant)
  }

  /** No emitted antecedent was ever accepted as an intersection, and no
      intersection was accepted twice. */
  predicate FreshResults(final: seq<Rule>, log: seq<MergeEvent>) {
    && (forall k :: 0 <= k < |final| ==> final[k].ant !in Results(log))
    && (forall k, l :: 0 <= k < l < |log| ==> log[k].result != log[l].result)
  }

  /** Every accepted intersection was legal and grew out of earlier rules. */
  predicate LogValid(rules: seq<Rule>, log: seq<MergeEvent>, data: Dataset,
                     minSupport: real, minConfidence: real)
    requires |data| > 0
  {
    && (forall k :: 0 <= k < |log| ==> Accepted(log[k], data, minSupport, minConfidence))
    && WellFounded(rules, log)
  }

  /** An emitted rule has been compared with every queued rule that may still
      be emitted, and with every other emitted rule. */
  predicate Compared(final: seq<Rule>, queue: seq<Rule>, seen: set<Antecedent>, data: Dataset,
                     minSupport: real, minConfidence: real)
    requires |data| > 0
  {
    && (forall k, r :: 0 <= k < |final| && r in queue && r.ant !in seen ==>
          Blocked(final[k].ant, r.ant, seen, data, minSupport, minConfidence))
    && (forall k, l :: 0 <= k < l < |final| ==>
          Blocked(final[k].ant, final[l].ant, seen, data, minSupport, minConfidence))
  }

  /** What holds of the queue, the result list, `seen` and the log between
      two rounds. */
  predicate MergeState(rules: seq<Rule>, queue: seq<Rule>, final: seq<Rule>,
                       seen: set<Antecedent>, log: seq<MergeEvent>, data: Dataset,
                       minSupport: real, minConfidence: real)
    requires |data| > 0
  {
    && QueueOrigin(rules, queue, log)
    && seen == Results(log) + Antecedents(final)
    && EmittedFromInput(rules, final)
    && FreshResults(final, log)
    && LogValid(rules, log, data, minSupport, minConfidence)
    && Compared(final, queue, seen, data, minSupport, minConfidence)
  }

  lemma ResultsAppend(log: seq<MergeEvent>, e: MergeEvent)
    ensures Results(log + [e]) == Results(log) + {e.result}
  {
    assert forall x :: x in log + [e] <==> x in log || x == e;
  }

  lemma AntecedentsAppend(final: seq<Rule>, r: Rule)
    ensures Antecedents(final + [r]) == Antecedents(final) + {r.ant}
  {
    assert forall x :: x in final + [r] <==> x in final || x == r;
  }

  /** Appending an intersection whose parents are already known keeps the log well founded. */
  lemma WellFoundedExtends(rules: seq<Rule>, log: seq<MergeEvent>, e: MergeEvent)
    requires WellFounded(rules, log)
    requires e.left in Antecedents(rules) + Results(log)
    requires e.right in Antecedents(rules) + Results(log)
    ensures WellFounded(rules, log + [e])
  {
    var log' := log + [e];
    forall k | 0 <= k < |log'|
      ensures log'[k].left in Antecedents(rules) + Results(log'[..k])
      ensures log'[k].right in Antecedents(rules) + Results(log'[..k])
    {
      if k < |log| {
        assert log'[..k] == log[..k];
      } else {
        assert log'[..k] == log;
      }
    }
  }

  /** Appending an accepted intersection keeps every entry accepted. */
  lemma AcceptedExtends(log: seq<MergeEvent>, e: MergeEvent, data: Dataset,
                        minSupport: real, minConfidence: real)
    requires |data| > 0
    requires forall k :: 0 <= k < |log| ==> Accepted(log[k], data, minSupport, minConfidence)
    requires Accepted(e, data, minSupport, minConfidence)
    ensures forall k :: 0 <= k < |log + [e]| ==> Accepted((log + [e])[k], data, minSupport, minConfidence)
  {
    forall k | 0 <= k < |log + [e]| ensures Accepted((log + [e])[k], data, minSupport, minConfidence) {
      if k < |log| {
        assert (log + [e])[k] == log[k];
      }
    }
  }

  /** Appending an accepted intersection whose parents are already known keeps the log valid. */
  lemma LogExtends(rules: seq<Rule>, log: seq<MergeEvent>, e: MergeEvent, data: Dataset,
                   minSupport: real, minConfidence: real)
    requires |data| > 0
    requires LogValid(rules, log, data, minSupport, minConfidence)
    requires Accepted(e, data, minSupport, minConfidence)
    requires e.left in Antecedents(rules) + Results(log)
    requires e.right in Antecedents(rules) + Results(log)
    ensures LogValid(rules, log + [e], data, minSupport, minConfidence)
  {
    WellFoundedExtends(rules, log, e);
    AcceptedExtends(log, e, data, minSupport, minConfidence);
  }

  /** Marking an intersection seen keeps every comparison made so far, and
      the intersection's own queued rule needs none. */
  lemma ComparedAfterMerge(final: seq<Rule>, queue: seq<Rule>, queue': seq<Rule>,
                           seen: set<Antecedent>, m: Antecedent, data: Dataset,
                           minSupport: real, minConfidence: real)
    requires |data| > 0
    requires Compared(final, queue, seen, data, minSupport, minConfidence)
    requires forall r :: r in queue' ==> r in queue || r.ant == m
    ensures Compared(final, queue', seen + {m}, data, minSupport, minConfidence)
  {
    forall k, r | 0 <= k < |final| && r in queue' && r.ant !in seen + {m}
      ensures Blocked(final[k].ant, r.ant, seen + {m}, data, minSupport, minConfidence)
    {
      assert Blocked(final[k].ant, r.ant, seen, data, minSupport, minConfidence);
    }
    forall k, l | 0 <= k < l < |final|
      ensures Blocked(final[k].ant, final[l].ant, seen + {m}, data, minSupport, minConfidence)
    {
      assert Blocked(final[k].ant, final[l].ant, seen, data, minSupport, minConfidence);
    }
  }

  /** Emitting the head rule after it was compared with the rest of the queue
      keeps every rule compared. */
  lemma ComparedAfterEmit(final: seq<Rule>, current: Rule, rest: seq<Rule>,
                          seen: set<Antecedent>, data: Dataset,
                          minSupport: real, minConfidence: real)
    requires |data| > 0
    requires Compared(final, [current] + rest, seen, data, minSupport, minConfidence)
    requires current.ant !in seen
    requires forall d :: d in rest ==> Blocked(current.ant, d.ant, seen, data, minSupport, minConfidence)
    ensures Compared(final + [current], rest, seen + {current.ant}, data, minSupport, minConfidence)
  {
    var final' := final + [current];
    var seen' := seen + {current.ant};
    assert current in [current] + rest;
    forall k, r | 0 <= k < |final'| && r in rest && r.ant !in seen'
      ensures Blocked(final'[k].ant, r.ant, seen', data, minSupport, minConfidence)
    {
      if k < |final| {
        assert r in [current] + rest;
        assert Blocked(final[k].ant, r.ant, seen, data, minSupport, minConfidence);
      } else {
        assert Blocked(current.ant, r.ant, seen, data, minSupport, minConfidence);
      }
    }
    forall k, l | 0 <= k < l < |final'|
      ensures Blocked(final'[k].ant, final'[l].ant, seen', data, minSupport, minConfidence)
    {
      if l < |final| {
        assert Blocked(final[k].ant, final[l].ant, seen, data, minSupport, minConfidence);
      } else {
        assert Blocked(final[k].ant, current.ant, seen, data, minSupport, minConfidence);
      }
    }
  }

  /** A round without a merge: the head rule is emitted unless already seen. */
  lemma EmitPreserves(rules: seq<Rule>, current: Rule, rest: seq<Rule>, final: seq<Rule>,
                      seen: set<Antecedent>, log: seq<MergeEvent>, data: Dataset,
                      minSupport: real, minConfidence: real)
    requires |data| > 0
    requires MergeState(rules, [current] + rest, final, seen, log, data, minSupport, minConfidence)
    requires forall d :: d in rest ==> Blocked(current.ant, d.ant, seen, data, minSupport, minConfidence)
    ensures current.ant !in seen ==>
              MergeState(rules, rest, final + [current], seen + {current.ant}, log, data, minSupport, minConfidence)
    ensures current.ant in seen ==>
              MergeState(rules, rest, final, seen, log, data, minSupport, minConfidence)
  {
    assert current in [current] + rest;
    assert forall r :: r in rest ==> r in [current] + rest;
    if current.ant !in seen {
      AntecedentsAppend(final, current);
      ComparedAfterEmit(final, current, rest, seen, data, minSupport, minConfidence);
    } else {
      assert Compared(final, rest, seen, data, minSupport, minConfidence);
    }
  }

  /** A queued rule's antecedent is an input antecedent or an accepted intersection. */
  lemma QueuedAntecedentKnown(rules: seq<Rule>, queue: seq<Rule>, log: seq<MergeEvent>, r: Rule)
    requires QueueOrigin(rules, queue, log) && r in queue
    ensures r.ant in Antecedents(rules) + Results(log)
  {
  }

  /** Queueing an accepted intersection keeps every queued rule accounted for. */
  lemma QueueOriginAfterMerge(rules: seq<Rule>, queue: seq<Rule>, queue': seq<Rule>,
                              log: seq<MergeEvent>, e: MergeEvent)
    requires QueueOrigin(rules, queue, log)
    requires forall r :: r in queue' ==> r in queue || r.ant == e.result
    ensures QueueOrigin(rules, queue', log + [e])
  {
    ResultsAppend(log, e);
  }

  /** Accepting an intersection that was never seen keeps results fresh. */
  lemma FreshAfterMerge(final: seq<Rule>, log: seq<MergeEvent>, e: MergeEvent)
    requires FreshResults(final, log)
    requires e.result !in Results(log) + Antecedents(final)
    ensures FreshResults(final, log + [e])
  {
    ResultsAppend(log, e);
    forall k | 0 <= k < |final| ensures final[k].ant != e.result {
      assert final[k] in final;
    }
    forall k, l | 0 <= k < l < |log + [e]| ensures (log + [e])[k].result != (log + [e])[l].result {
      if l < |log| {
        assert (log + [e])[k] == log[k] && (log + [e])[l] == log[l];
      } else {
        assert (log + [e])[k] == log[k] && log[k] in log;
      }
    }
  }

  /** A round with a merge: the partner is consumed and the accepted
      intersection takes its place after the skipped candidates. */
  lemma MergePreserves(rules: seq<Rule>, current: Rule, skipped: seq<Rule>, partner: Rule,
                       remaining: seq<Rule>, m: Antecedent, final: seq<Rule>,
                       seen: set<Antecedent>, log: seq<MergeEvent>, data: Dataset,
                       minSupport: real, minConfidence: real)
    requires |data| > 0
    requires MergeState(rules, [current] + (skipped + [partner] + remaining), final, seen, log,
                        data, minSupport, minConfidence)
    requires m == current.ant * partner.ant && m != {} && m !in seen
    requires MeetsThresholds(Evaluate(m, data), minSupport, minConfidence)
    ensures MergeState(rules, skipped + [Evaluate(m, data)] + remaining, final, seen + {m},
                       log + [MergeEvent(current.ant, partner.ant, m)], data, minSupport, minConfidence)
  {
    var queue := [current] + (skipped + [partner] + remaining);
    var queue' := skipped + [Evaluate(m, data)] + remaining;
    var e := MergeEvent(current.ant, partner.ant, m);
    ResultsAppend(log, e);
    assert forall r :: r in queue' ==> r in queue || r.ant == m;
    QueueOriginAfterMerge(rules, queue, queue', log, e);
    FreshAfterMerge(final, log, e);
    assert current in queue && partner in queue;
    QueuedAntecedentKnown(rules, queue, log, current);
    QueuedAntecedentKnown(rules, queue, log, partner);
    LogExtends(rules, log, e, data, minSupport, minConfidence);
    ComparedAfterMerge(final, queue, queue', seen, m, data, minSupport, minConfidence);
  }

  /** Every two emitted rules, in either order, were compared. */
  lemma EmittedPairsBlocked(rules: seq<Rule>, queue: seq<Rule>, final: seq<Rule>,
                           seen: set<Antecedent>, log: seq<MergeEvent>, data: Dataset,
                           minSupport: real, minConfidence: real)
    requires |data| > 0
    requires MergeState(rules, queue, final, seen, log, data, minSupport, minConfidence)
    ensures forall k, l :: 0 <= k < |final| && 0 <= l < |final| && k != l ==>
              Blocked(final[k].ant, final[l].ant, seen, data, minSupport, minConfidence)
  {
    forall k, l | 0 <= k < |final| && 0 <= l < |final| && k != l
      ensures Blocked(final[k].ant, final[l].ant, seen, data, minSupport, minConfidence)
    {
      if l < k {
        BlockedSymmetric(final[k].ant, final[l].ant, seen, data, minSupport, minConfidence);
      }
    }
  }

  function Min(a: int, b: int): int {
    if a <= b then a else b
  }

  // ---------------------------------------------------------------------
  // The rounds on values: what a run computes.
  // ---------------------------------------------------------------------

  /** The work queue, the result list and `seen` between two rounds. */
  datatype Work = Work(queue: seq<Rule>, final: seq<Rule>, seen: set<Antecedent>)

  /** For each candidate, whether its intersection with `a` is blocked. */
  function BlockedFlags(a: Antecedent, queue: seq<Rule>, seen: set<Antecedent>, data: Dataset,
                        minSupport: real, minConfidence: real): (flags: seq<bool>)
    requires |data| > 0
    ensures |flags| == |queue|
    ensures forall j :: 0 <= j < |queue| ==> flags[j] == Blocked(a, queue[j].ant, seen, data, minSupport, minConfidence)
  {
    seq(|queue|, j requires 0 <= j < |queue| => Blocked(a, queue[j].ant, seen, data, minSupport, minConfidence))
  }

  /** Position of the first `false`, or `|flags|` when there is none. */
  function FirstFalse(flags: seq<bool>): (i: nat)
    ensures i <= |flags|
  {
    if flags == [] || !flags[0] then 0 else 1 + FirstFalse(flags[1..])
  }

  /** Everything before the first `false` is `true`. */
  lemma {:induction false} FirstFalseMeaning(flags: seq<bool>)
    ensures forall j :: 0 <= j < FirstFalse(flags) ==> flags[j]
    ensures FirstFalse(flags) < |flags| ==> !flags[FirstFalse(flags)]
  {
    if flags != [] && flags[0] {
      FirstFalseMeaning(flags[1..]);
      assert forall j :: 1 <= j < |flags| ==> flags[j] == flags[1..][j - 1];
    }
  }

  /** One round: the head is merged with the first candidate it is not
      blocked with, the measured intersection taking the candidate's place;
      without such a candidate the head is emitted unless already seen. */
  function Round(w: Work, data: Dataset, minSupport: real, minConfidence: real): (w': Work)
    requires |data| > 0 && w.queue != []
    ensures |w'.queue| == |w.queue| - 1
    ensures w.final <= w'.final && w.seen <= w'.seen
  {
    var current := w.queue[0];
    var rest := w.queue[1..];
    var i := FirstFalse(BlockedFlags(current.ant, rest, w.seen, data, minSupport, minConfidence));
    if i < |rest| then
      var m := current.ant * rest[i].ant;
      Work(rest[..i] + [Evaluate(m, data)] + rest[i + 1..], w.final, w.seen + {m})
    else
      Work(rest, if current.ant in w.seen then w.final else w.final + [current], w.seen + {current.ant})
  }

  /** The result list once the rounds from `w` on have run, the next round
      being number `counter`: rounds stop when the queue is empty or the
      counter has passed `cap`. */
  function Run(w: Work, counter: int, cap: int, data: Dataset, minSupport: real, minConfidence: real)
    : (final: seq<Rule>)
    requires |data| > 0
    ensures w.final <= final
    decreases |w.queue|
  {
    if w.queue == [] || counter > cap then w.final
    else Run(Round(w, data, minSupport, minConfidence), counter + 1, cap, data, minSupport, minConfidence)
  }

  /** What `merge_rules` returns for `rules` with iteration cap `cap`. */
  function MergeRun(rules: seq<Rule>, data: Dataset, minSupport: real, minConfidence: real, cap: int)
    : seq<Rule>
    requires |data| > 0
  {
    Run(Work(rules, [], {}), 0, cap, data, minSupport, minConfidence)
  }

  /** With both thresholds at zero only empty and seen intersections block. */
  lemma ZeroThresholdsBlock(a: Antecedent, b: Antecedent, seen: set<Antecedent>, data: Dataset)
    requires |data| > 0
    ensures Blocked(a, b, seen, data, 0.0, 0.0) <==> (a * b == {} || a * b in seen)
  {
    var r := Evaluate(a * b, data);
  }

  /** A head merges with the first candidate it is not blocked with; the
      candidates before it stay in front of the measured intersection. */
  lemma MergesWithFirstUnblocked(w: Work, skipped: seq<Rule>, partner: Rule, remaining: seq<Rule>,
                                 data: Dataset, minSupport: real, minConfidence: real)
    requires |data| > 0 && w.queue != []
    requires w.queue[1..] == skipped + [partner] + remaining
    requires forall d :: d in skipped ==> Blocked(w.queue[0].ant, d.ant, w.seen, data, minSupport, minConfidence)
    requires !Blocked(w.queue[0].ant, partner.ant, w.seen, data, minSupport, minConfidence)
    ensures var m := w.queue[0].ant * partner.ant;
            Round(w, data, minSupport, minConfidence)
            == Work(skipped + [Evaluate(m, data)] + remaining, w.final, w.seen + {m})
  {
    var rest := w.queue[1..];
    var i := |skipped|;
    var flags := BlockedFlags(w.queue[0].ant, rest, w.seen, data, minSupport, minConfidence);
    FirstFalseMeaning(flags);
    assert rest[i] == partner && !flags[i];
    forall j | 0 <= j < i ensures flags[j] {
      assert rest[j] == skipped[j] && skipped[j] in skipped;
    }
    assert FirstFalse(flags) == i;
    assert rest[..i] == skipped && rest[i + 1..] == remaining;
  }

  /** A head blocked with every candidate is emitted unless already seen. */
  lemma EmitsWhenAllBlocked(w: Work, data: Dataset, minSupport: real, minConfidence: real)
    requires |data| > 0 && w.queue != []
    requires forall d :: d in w.queue[1..] ==> Blocked(w.queue[0].ant, d.ant, w.seen, data, minSupport, minConfidence)
    ensures var c := w.queue[0];
            Round(w, data, minSupport, minConfidence)
            == Work(w.queue[1..], if c.ant in w.seen then w.final else w.final + [c], w.seen + {c.ant})
  {
    var rest := w.queue[1..];
    var flags := BlockedFlags(w.queue[0].ant, rest, w.seen, data, minSupport, minConfidence);
    FirstFalseMeaning(flags);
    forall j | 0 <= j < |rest| ensures flags[j] {
      assert rest[j] in rest;
    }
  }

  /** A run with no work left, or with the counter past the cap, returns the
      results so far. */
  lemma RunStops(w: Work, counter: int, cap: int, data: Dataset, minSupport: real, minConfidence: real)
    requires |data| > 0 && (w.queue == [] || counter > cap)
    ensures Run(w, counter, cap, data, minSupport, minConfidence) == w.final
  {
  }

  /** A run with work left and the counter within the cap runs one more
      round, `w'` being its outcome. */
  lemma RunOneRound(w: Work, w': Work, counter: int, cap: int, data: Dataset, minSupport: real,
                    minConfidence: real)
    requires |data| > 0 && w.queue != [] && counter <= cap
    requires w' == Round(w, data, minSupport, minConfidence)
    ensures Run(w, counter, cap, data, minSupport, minConfidence)
            == Run(w', counter + 1, cap, data, minSupport, minConfidence)
  {
  }

  /** The first round of the example: `{a,b}` merges with `{a,c}` into `M`. */
  lemma FirstRound(data: Dataset, ab: Rule, ac: Rule, ad: Rule, ae: Rule, M: Antecedent)
    requires |data| > 0
    requires ab.ant * ac.ant == M && M != {}
    ensures Round(Work([ab, ac, ad, ae], [], {}), data, 0.0, 0.0) == Work([Evaluate(M, data), ad, ae], [], {M})
  {
    var w0 := Work([ab, ac, ad, ae], [], {});
    assert !Blocked(ab.ant, ac.ant, {}, data, 0.0, 0.0) by {
      ZeroThresholdsBlock(ab.ant, ac.ant, {}, data);
    }
    SplitFourAtSecond(ab, ac, ad, ae, Evaluate(M, data));
    MergesWithFirstUnblocked(w0, [], ac, [ad, ae], data, 0.0, 0.0);
  }

  /** A four-rule queue split at its first partner, the second rule: its tail
      is no skipped candidates, the partner and the last two rules; with the
      partner replaced by the merge `e`, the new queue is `e` before those two. */
  lemma SplitFourAtSecond<T>(a: T, b: T, c: T, d: T, e: T)
    ensures [a, b, c, d][1..] == [] + [b] + [c, d]
    ensures [] + [e] + [c, d] == [e, c, d]
  {
  }

  /** The second round of the example: the head `M` meets only already-seen
      intersections and is dropped. */
  lemma SecondRound(data: Dataset, head: Rule, ad: Rule, ae: Rule, M: Antecedent)
    requires |data| > 0
    requires head.ant == M && M * ad.ant == M && M * ae.ant == M
    ensures Round(Work([head, ad, ae], [], {M}), data, 0.0, 0.0) == Work([ad, ae], [], {M})
  {
    var w1 := Work([head, ad, ae], [], {M});
    assert w1.queue[1..] == [ad, ae];
    assert forall d :: d in w1.queue[1..] ==> Blocked(M, d.ant, {M}, data, 0.0, 0.0) by {
      ZeroThresholdsBlock(M, ad.ant, {M}, data);
      ZeroThresholdsBlock(M, ae.ant, {M}, data);
    }
    EmitsWhenAllBlocked(w1, data, 0.0, 0.0);
    assert {M} + {M} == {M};
  }

  /** The last two rounds of the example: `{a,d}` and `{a,e}` are emitted. */
  lemma LastRounds(data: Dataset, ad: Rule, ae: Rule, M: Antecedent)
    requires |data| > 0
    requires ad.ant * ae.ant == M && ad.ant != M && ae.ant != M && ad.ant != ae.ant
    ensures Round(Work([ad, ae], [], {M}), data, 0.0, 0.0) == Work([ae], [ad], {M, ad.ant})
    ensures Round(Work([ae], [ad], {M, ad.ant}), data, 0.0, 0.0) == Work([], [ad, ae], {M, ad.ant, ae.ant})
  {
    var w2 := Work([ad, ae], [], {M});
    assert w2.queue[1..] == [ae];
    assert Blocked(ad.ant, ae.ant, {M}, data, 0.0, 0.0) by {
      ZeroThresholdsBlock(ad.ant, ae.ant, {M}, data);
    }
    EmitsWhenAllBlocked(w2, data, 0.0, 0.0);
    var w3 := Work([ae], [ad], {M, ad.ant});
    EmitsWhenAllBlocked(w3, data, 0.0, 0.0);
    assert [ad] + [ae] == [ad, ae];
  }

  /** The first run of the example, for any antecedents shaped like
      `{a,b} {a,c} {a,d} {a,e}` with `M == {a}`. */
  lemma FirstRunExample(data: Dataset, cap: int, ab: Rule, ac: Rule, ad: Rule, ae: Rule, M: Antecedent)
    requires |data| > 0 && cap >= 3
    requires ab.ant * ac.ant == M && M * ad.ant == M && M * ae.ant == M && ad.ant * ae.ant == M
    requires M != {} && ad.ant != M && ae.ant != M && ad.ant != ae.ant
    ensures MergeRun([ab, ac, ad, ae], data, 0.0, 0.0, cap) == [ad, ae]
  {
    var w0 := Work([ab, ac, ad, ae], [], {});
    var w1 := Work([Evaluate(M, data), ad, ae], [], {M});
    var w2 := Work([ad, ae], [], {M});
    var w3 := Work([ae], [ad], {M, ad.ant});
    var w4 := Work([], [ad, ae], {M, ad.ant, ae.ant});
    FirstRound(data, ab, ac, ad, ae, M);
    SecondRound(data, Evaluate(M, data), ad, ae, M);
    LastRounds(data, ad, ae, M);
    RunOneRound(w0, w1, 0, cap, data, 0.0, 0.0);
    RunOneRound(w1, w2, 1, cap, data, 0.0, 0.0);
    RunOneRound(w2, w3, 2, cap, data, 0.0, 0.0);
    RunOneRound(w3, w4, 3, cap, data, 0.0, 0.0);
  }

  /** The second run of the example, on the first run's result: the two
      rules merge into `M`, which is then dropped as seen. */
  lemma SecondRunExample(data: Dataset, cap: int, ad: Rule, ae: Rule, M: Antecedent)
    requires |data| > 0 && cap >= 1
    requires ad.ant * ae.ant == M && M != {}
    ensures MergeRun([ad, ae], data, 0.0, 0.0, cap) == []
  {
    var v0 := Work([ad, ae], [], {});
    var v1 := Work([Evaluate(M, data)], [], {M});
    assert Round(v0, data, 0.0, 0.0) == v1 by {
      assert !Blocked(ad.ant, ae.ant, {}, data, 0.0, 0.0) by {
        ZeroThresholdsBlock(ad.ant, ae.ant, {}, data);
      }
      SplitTwoAtSecond(ad, ae, Evaluate(M, data));
      MergesWithFirstUnblocked(v0, [], ae, [], data, 0.0, 0.0);
    }
    assert Round(v1, data, 0.0, 0.0) == Work([], [], {M}) by {
      EmitsWhenAllBlocked(v1, data, 0.0, 0.0);
    }
    RunOneRound(v0, v1, 0, cap, data, 0.0, 0.0);
    RunOneRound(v1, Work([], [], {M}), 1, cap, data, 0.0, 0.0);
  }

  /** A two-rule queue split at its second rule, as in `SplitFourAtSecond`:
      the tail is only the partner, and the new queue is only the merge `e`. */
  lemma SplitTwoAtSecond<T>(a: T, b: T, e: T)
    ensures [a, b][1..] == [] + [b] + []
    ensures [] + [e] + [] == [e]
  {
  }

  /** Merging is not idempotent. With zero thresholds, `{a,b} {a,c} {a,d} {a,e}`
      gives `{a,d} {a,e}`: the first two merge into `{a}`, which then blocks
      every other pair and is itself never emitted. Run again, `{a,d}` and
      `{a,e}` merge into a fresh `{a}`, and nothing is emitted. */
  lemma MergeIsNotIdempotent(data: Dataset, cap: int)
    requires |data| > 0 && cap >= 3
    ensures var once := MergeRun([Rule({"a", "b"}, 0.0, 0.0), Rule({"a", "c"}, 0.0, 0.0),
                                  Rule({"a", "d"}, 0.0, 0.0), Rule({"a", "e"}, 0.0, 0.0)],
                                 data, 0.0, 0.0, cap);
            once == [Rule({"a", "d"}, 0.0, 0.0), Rule({"a", "e"}, 0.0, 0.0)]
            && MergeRun(once, data, 0.0, 0.0, cap) == []
  {
    var ab := Rule({"a", "b"}, 0.0, 0.0);
    var ac := Rule({"a", "c"}, 0.0, 0.0);
    var ad := Rule({"a", "d"}, 0.0, 0.0);
    var ae := Rule({"a", "e"}, 0.0, 0.0);
    var M: Antecedent := {"a"};
    assert "b" !in ac.ant && "d" !in ae.ant && "d" !in M && "e" !in M && "d" !in ae.ant;
    assert ab.ant * ac.ant == M && M * ad.ant == M && M * ae.ant == M && ad.ant * ae.ant == M;
    FirstRunExample(data, cap, ab, ac, ad, ae, M);
    SecondRunExample(data, cap, ad, ae, M);
  }

  /** One pass of a round over the rest of the queue: candidates are taken
      from the front until one gives an intersection with `current` that is
      non-empty, not in `seen` and clears both thresholds. The candidates passed
      over come back in `newQueue`, in order; on a merge the partner is
      consumed and the unscanned candidates are returned in `rest`. */
  method ScanForPartner(current: Rule, queue: seq<Rule>, seen: set<Antecedent>, data: Dataset,
                        minSupport: real, minConfidence: real)
    returns (newQueue: seq<Rule>, merged: bool, intersection: Antecedent, support: real,
             confidence: real, rest: seq<Rule>, ghost partner: Rule)
    requires |data| > 0
    // every candidate passed over is blocked
    ensures forall d :: d in newQueue ==> Blocked(current.ant, d.ant, seen, data, minSupport, minConfidence)
    ensures !merged ==> newQueue == queue && rest == []
    // on a merge: the first unblocked candidate is the partner
    ensures merged ==> queue == newQueue + [partner] + rest
    ensures merged ==> intersection == current.ant * partner.ant && intersection != {} && intersection !in seen
    ensures merged ==> Rule(intersection, support, confidence) == Evaluate(intersection, data)
    ensures merged ==> support >= minSupport && confidence >= minConfidence
  {
    rest := queue;
    merged := false;
    newQueue := [];
    intersection, support, confidence, partner := {}, 0.0, 0.0, current;
    while rest != []
      invariant newQueue + rest == queue
      invariant forall d :: d in newQueue ==> Blocked(current.ant, d.ant, seen, data, minSupport, minConfidence)
      decreases |rest|
    {
      var candidate := rest[0];
      rest := rest[1..];
      var m := current.ant * candidate.ant;
      if m == {} || m in seen {
        newQueue := newQueue + [candidate];
        continue;
      }
      var measured := Evaluate(m, data);
      if measured.support >= minSupport && measured.confidence >= minConfidence {
        intersection, support, confidence, partner := m, measured.support, measured.confidence, candidate;
        merged := true;
        return;
      } else {
        newQueue := newQueue + [candidate];
      }
    }
  }

  /** How one round changes the state. `seen`, the result list and the log
      only grow. Without a merge the head leaves the queue and is emitted
      unless its antecedent was seen. With a merge the head and its partner
      leave, and the measured intersection takes the partner's place. */
  ghost predicate RoundStep(queue: seq<Rule>, final: seq<Rule>, seen: set<Antecedent>, log: seq<MergeEvent>,
                            queue': seq<Rule>, final': seq<Rule>, seen': set<Antecedent>,
                            log': seq<MergeEvent>, data: Dataset)
    requires |data| > 0 && queue != []
  {
    && seen <= seen' && final <= final' && log <= log' && |log'| <= |log| + 1
    && |queue'| == |queue| - 1
    && (|log'| == |log| ==>
          && queue' == queue[1..]
          && final' == (if queue[0].ant in seen then final else final + [queue[0]]))
    && (|log'| == |log| + 1 ==>
          && final' == final
          && log'[|log|].left == queue[0].ant
          && exists i :: && 1 <= i < |queue|
                         && log'[|log|].right == queue[i].ant
                         && queue' == queue[1..i] + [Evaluate(log'[|log|].result, data)] + queue[i + 1..])
  }

  /** One round: take the head rule, scan the rest for a partner, and either
      queue the accepted intersection in the partner's place or emit the head
      rule (unless its antecedent was already seen). The queue shrinks by one. */
  method MergeRound(rules: seq<Rule>, queue: seq<Rule>, final: seq<Rule>, seen: set<Antecedent>,
                    ghost log: seq<MergeEvent>, data: Dataset, minSupport: real, minConfidence: real)
    returns (queue': seq<Rule>, final': seq<Rule>, seen': set<Antecedent>, ghost log': seq<MergeEvent>)
    requires |data| > 0 && queue != []
    requires MergeState(rules, queue, final, seen, log, data, minSupport, minConfidence)
    ensures MergeState(rules, queue', final', seen', log', data, minSupport, minConfidence)
    ensures RoundStep(queue, final, seen, log, queue', final', seen', log', data)
    // the round is the reference round on values
    ensures Work(queue', final', seen') == Round(Work(queue, final, seen), data, minSupport, minConfidence)
  {
    var newQueue, merged, intersection, support, confidence, rest, partner :=
      ScanForPartner(queue[0], queue[1..], seen, data, minSupport, minConfidence);
    if merged {
      queue', seen', log' := AcceptMerge(rules, queue, newQueue, partner, rest, intersection, support,
                                         confidence, final, seen, log, data, minSupport, minConfidence);
      final' := final;
      MergesWithFirstUnblocked(Work(queue, final, seen), newQueue, partner, rest, data, minSupport, minConfidence);
    } else {
      final', seen' := EmitHead(rules, queue, final, seen, log, data, minSupport, minConfidence);
      log' := log;
      queue' := queue[1..];
      EmitsWhenAllBlocked(Work(queue, final, seen), data, minSupport, minConfidence);
    }
  }

  /** Where the partner found by a scan of `queue[1..]` sits in `queue`. */
  lemma PartnerPosition(queue: seq<Rule>, skipped: seq<Rule>, partner: Rule, rest: seq<Rule>)
    returns (i: int)
    requires queue != [] && queue[1..] == skipped + [partner] + rest
    ensures 1 <= i < |queue| && queue[i] == partner
    ensures queue[1..i] == skipped && queue[i + 1..] == rest
    ensures queue == [queue[0]] + (skipped + [partner] + rest)
  {
    i := |skipped| + 1;
    assert queue[1..][|skipped|] == partner;
    assert queue[1..][..|skipped|] == skipped;
    assert queue[1..][|skipped| + 1..] == rest;
  }

  /** A merge is a round step. */
  lemma MergeStep(queue: seq<Rule>, skipped: seq<Rule>, partner: Rule, remaining: seq<Rule>,
                  m: Antecedent, final: seq<Rule>, seen: set<Antecedent>, log: seq<MergeEvent>,
                  data: Dataset)
    requires |data| > 0 && queue != []
    requires queue[1..] == skipped + [partner] + remaining
    ensures RoundStep(queue, final, seen, log, skipped + [Evaluate(m, data)] + remaining, final,
                      seen + {m}, log + [MergeEvent(queue[0].ant, partner.ant, m)], data)
  {
    var i := PartnerPosition(queue, skipped, partner, remaining);
    var log' := log + [MergeEvent(queue[0].ant, partner.ant, m)];
    assert log <= log' && log'[|log|].right == queue[i].ant;
  }

  /** Emitting or dropping the head is a round step. */
  lemma EmitStep(queue: seq<Rule>, final: seq<Rule>, seen: set<Antecedent>, log: seq<MergeEvent>,
                 data: Dataset)
    requires |data| > 0 && queue != []
    ensures queue == [queue[0]] + queue[1..]
    ensures RoundStep(queue, final, seen, log, queue[1..],
                      if queue[0].ant in seen then final else final + [queue[0]],
                      seen + {queue[0].ant}, log, data)
  {
  }

  /** A merge (lines 107-113 and 124): the intersection of the head with the
      partner is marked seen and, with its measures, takes the partner's place
      behind the candidates skipped before it. */
  method AcceptMerge(rules: seq<Rule>, queue: seq<Rule>, skipped: seq<Rule>, ghost partner: Rule,
                     remaining: seq<Rule>, m: Antecedent, support: real, confidence: real,
                     final: seq<Rule>, seen: set<Antecedent>, ghost log: seq<MergeEvent>,
                     data: Dataset, minSupport: real, minConfidence: real)
    returns (queue': seq<Rule>, seen': set<Antecedent>, ghost log': seq<MergeEvent>)
    requires |data| > 0 && queue != []
    requires MergeState(rules, queue, final, seen, log, data, minSupport, minConfidence)
    requires queue[1..] == skipped + [partner] + remaining
    requires m == queue[0].ant * partner.ant && m != {} && m !in seen
    requires Rule(m, support, confidence) == Evaluate(m, data)
    requires support >= minSupport && confidence >= minConfidence
    ensures queue' == skipped + [Evaluate(m, data)] + remaining
    ensures seen' == seen + {m}
    ensures log' == log + [MergeEvent(queue[0].ant, partner.ant, m)]
    ensures MergeState(rules, queue', final, seen', log', data, minSupport, minConfidence)
    ensures RoundStep(queue, final, seen, log, queue', final, seen', log', data)
  {
    var _ := PartnerPosition(queue, skipped, partner, remaining);
    MergePreserves(rules, queue[0], skipped, partner, remaining, m, final, seen, log,
                   data, minSupport, minConfidence);
    MergeStep(queue, skipped, partner, remaining, m, final, seen, log, data);
    seen' := seen + {m};
    log' := log + [MergeEvent(queue[0].ant, partner.ant, m)];
    queue' := skipped + [Rule(m, support, confidence)] + remaining;
  }

  /** No merge (lines 118-122): the head is emitted unless its antecedent was
      seen, and its antecedent is seen afterwards either way. */
  method EmitHead(rules: seq<Rule>, queue: seq<Rule>, final: seq<Rule>, seen: set<Antecedent>,
                  ghost log: seq<MergeEvent>, data: Dataset, minSupport: real, minConfidence: real)
    returns (final': seq<Rule>, seen': set<Antecedent>)
    requires |data| > 0 && queue != []
    requires MergeState(rules, queue, final, seen, log, data, minSupport, minConfidence)
    requires forall d :: d in queue[1..] ==> Blocked(queue[0].ant, d.ant, seen, data, minSupport, minConfidence)
    ensures final' == (if queue[0].ant in seen then final else final + [queue[0]])
    ensures seen' == seen + {queue[0].ant}
    ensures MergeState(rules, queue[1..], final', seen', log, data, minSupport, minConfidence)
    ensures RoundStep(queue, final, seen, log, queue[1..], final', seen', log, data)
  {
    EmitStep(queue, final, seen, log, data);
    EmitPreserves(rules, queue[0], queue[1..], final, seen, log, data, minSupport, minConfidence);
    final', seen' := final, seen;
    var current := queue[0];
    if current.ant !in seen {
      seen' := seen + {current.ant};
      final' := final + [current];
    }
  }

  /** The work queue starts as the input in order. Each round takes the head
      rule C and scans the rest once: the first D whose intersection with C is
      non-empty, not yet seen and clears both thresholds is consumed, the
      intersection is marked seen and put back in front of the unscanned rest
      (after the candidates skipped so far). A round without such a D emits C,
      unless its antecedent was already seen. At most `maxIterations + 1`
      rounds run.

      A round is `MergeRound` and its scan `ScanForPartner`; `seen`, the log of accepted
      intersections and the number of rounds are
      returned as ghost results so that the contract can speak of them. */
  method MergeRules(rules: seq<Rule>, data: Dataset, minSupport: real, minConfidence: real,
                    maxIterations: int)
    returns (final: seq<Rule>, ghost seen: set<Antecedent>, ghost log: seq<MergeEvent>,
             ghost rounds: nat)
    requires |data| > 0
    // only input records are emitted, each unchanged, no antecedent twice
    ensures EmittedFromInput(rules, final)
    // no emitted antecedent equals an accepted intersection, none accepted twice
    ensures FreshResults(final, log)
    // what `seen` holds at the end
    ensures seen == Results(log) + Antecedents(final)
    // every accepted intersection was legal and grew out of earlier rules
    ensures LogValid(rules, log, data, minSupport, minConfidence)
    // no two emitted rules leave a generalisation unexplored
    ensures forall k, l :: 0 <= k < |final| && 0 <= l < |final| && k != l ==>
              Blocked(final[k].ant, final[l].ant, seen, data, minSupport, minConfidence)
    // each round shrinks the queue by one, so the loop is bounded twice over
    ensures |final| <= rounds
    ensures rounds == if maxIterations < 0 then 0 else Min(|rules|, maxIterations + 1)
    // the result is exactly the reference run
    ensures final == MergeRun(rules, data, minSupport, minConfidence, maxIterations)
  {
    var queue := rules;
    final := [];
    var seenSet: set<Antecedent> := {};
    log := [];
    var counter := 0;

    while queue != []
      invariant |queue| + counter == |rules|
      invariant counter == 0 || counter <= maxIterations + 1
      invariant |final| <= counter
      invariant MergeState(rules, queue, final, seenSet, log, data, minSupport, minConfidence)
      invariant Run(Work(queue, final, seenSet), counter, maxIterations, data, minSupport, minConfidence)
                == MergeRun(rules, data, minSupport, minConfidence, maxIterations)
      decreases |queue|
    {
      if counter > maxIterations {
        break;
      }
      counter := counter + 1;

      ghost var before := Work(queue, final, seenSet);
      queue, final, seenSet, log := MergeRound(rules, queue, final, seenSet, log, data, minSupport, minConfidence);
      RunOneRound(before, Work(queue, final, seenSet), counter - 1, maxIterations, data, minSupport, minConfidence);
    }

    seen := seenSet;
    rounds := counter;
    RunStops(Work(queue, final, seenSet), counter, maxIterations, data, minSupport, minConfidence);
    EmittedPairsBlocked(rules, queue, final, seen, log, data, minSupport, minConfidence);
  }
}


