/** Where the persisted cursor stands when a range ends quietly: at its end for one worker or one height,
    anywhere behind it otherwise. */
module IngestCursor {
  import opened Wrappers
  import opened IngestRange
  import opened IngestSafety

  // ---- when writes land in order ----

  /** Writes that land in increasing order of the height they claim. */
  ghost predicate LandsInOrder(hashOf: int -> Option<Hash>, s: System, actions: seq<Action>)
    requires CanRun(hashOf, s, actions)
    decreases |actions|
  {
    actions == []
    || (&& (actions[0].Land? && s.cursor.Some? ==> s.cursor.value.height <= s.workers[actions[0].i].write.height)
        && LandsInOrder(hashOf, Next(hashOf, s, actions[0]), actions[1..]))
  }

  /** The watermark is already persisted, or its write is still to land, or its write threw. */
  ghost predicate WatermarkIsWritten(s: System) {
    s.shared.watermark.Some? && s.thrown == map[] ==>
      || (s.cursor.Some? && s.cursor.value.height == s.shared.watermark.value)
      || exists i :: 0 <= i < |s.workers| && s.workers[i].Writing? && !s.workers[i].landed
                  && s.workers[i].write.height == s.shared.watermark.value
  }

  lemma StepKeepsWritten(hashOf: int -> Option<Hash>, s: System, a: Action)
    requires Inv(hashOf, s) && Enabled(s, a) && WatermarkIsWritten(s)
    requires a.Land? && s.cursor.Some? ==> s.cursor.value.height <= s.workers[a.i].write.height
    ensures WatermarkIsWritten(Next(hashOf, s, a))
  {
    var s' := Next(hashOf, s, a);
    var mark := s.shared.watermark;
    if a.Ingested? && s'.shared.watermark != mark {
      AdvanceExactly(s.shared.start, mark, s.shared.ahead + {s.workers[a.i].height});
      assert s'.workers[a.i].Writing? && s'.workers[a.i].write.height == s'.shared.watermark.value;
    } else if mark.Some? && s'.thrown == map[] {
      WritesStayBelow(hashOf, s);
      if !(s.cursor.Some? && s.cursor.value.height == mark.value) {
        var k :| 0 <= k < |s.workers| && s.workers[k].Writing? && !s.workers[k].landed
              && s.workers[k].write.height == mark.value;
        assert k != a.i ==> s'.workers[k] == s.workers[k];
      }
    }
  }

  lemma WritesStayBelow(hashOf: int -> Option<Hash>, s: System)
    requires Inv(hashOf, s)
    ensures forall i :: 0 <= i < |s.workers| && s.workers[i].Writing? ==>
              s.shared.watermark.Some? && s.workers[i].write.height <= s.shared.watermark.value
    ensures s.cursor.Some? ==> s.shared.watermark.Some? && s.cursor.value.height <= s.shared.watermark.value
  {
    forall w | Honest(hashOf, s, w)
      ensures s.shared.watermark.Some? && w.height <= s.shared.watermark.value
    {
      assert Candidate(s.shared.start, s.shared.watermark) !in s.completed;
    }
  }

  lemma {:induction false} OrderedRunKeepsWritten(hashOf: int -> Option<Hash>, s: System, actions: seq<Action>)
    requires Inv(hashOf, s) && WatermarkIsWritten(s)
    requires CanRun(hashOf, s, actions) && LandsInOrder(hashOf, s, actions)
    ensures Inv(hashOf, Run(hashOf, s, actions)) && WatermarkIsWritten(Run(hashOf, s, actions))
    decreases |actions|
  {
    if actions != [] {
      StepKeepsInv(hashOf, s, actions[0]);
      StepKeepsWritten(hashOf, s, actions[0]);
      OrderedRunKeepsWritten(hashOf, Next(hashOf, s, actions[0]), actions[1..]);
    }
  }

  /** If cursor writes land in order, a quiet range ends with its last height persisted. */
  lemma OrderedWritesPersistTheEnd(hashOf: int -> Option<Hash>, start: int, end: int, concurrency: int,
                                   actions: seq<Action>)
    requires start <= end
    requires CanRun(hashOf, Start(start, end, concurrency), actions)
    requires LandsInOrder(hashOf, Start(start, end, concurrency), actions)
    requires AllStopped(Run(hashOf, Start(start, end, concurrency), actions))
    requires Run(hashOf, Start(start, end, concurrency), actions).thrown == map[]
    ensures Run(hashOf, Start(start, end, concurrency), actions).cursor == Some(CursorWrite(end, hashOf(end)))
  {
    var s := Run(hashOf, Start(start, end, concurrency), actions);
    StartHasInv(hashOf, start, end, concurrency);
    OrderedRunKeepsWritten(hashOf, Start(start, end, concurrency), actions);
    QuietRangeIsComplete(hashOf, start, end, concurrency, s);
    RunKeepsConfig(hashOf, Start(start, end, concurrency), actions);
  }

  /** With one worker the watermark is the height of its write. */
  ghost predicate OneAtATime(s: System) {
    && |s.workers| == 1
    && (s.workers[0].Writing? ==> s.shared.watermark == Some(s.workers[0].write.height))
  }

  /** A single worker's cursor writes always land in order. */
  lemma {:induction false} SingleWorkerLandsInOrder(hashOf: int -> Option<Hash>, s: System, actions: seq<Action>)
    requires Inv(hashOf, s) && OneAtATime(s) && CanRun(hashOf, s, actions)
    ensures LandsInOrder(hashOf, s, actions)
    decreases |actions|
  {
    if actions != [] {
      WritesStayBelow(hashOf, s);
      StepKeepsInv(hashOf, s, actions[0]);
      SingleWorkerLandsInOrder(hashOf, Next(hashOf, s, actions[0]), actions[1..]);
    }
  }

  // ---- one height ----

  /** All writes of a one-height range claim that height. */
  lemma {:induction false} OneHeightLandsInOrder(hashOf: int -> Option<Hash>, s: System, actions: seq<Action>)
    requires Inv(hashOf, s) && s.shared.start == s.shared.end && CanRun(hashOf, s, actions)
    ensures LandsInOrder(hashOf, s, actions)
    decreases |actions|
  {
    if actions != [] {
      WritesStayBelow(hashOf, s);
      MarkStaysInRange(hashOf, s);
      StepKeepsInv(hashOf, s, actions[0]);
      OneHeightLandsInOrder(hashOf, Next(hashOf, s, actions[0]), actions[1..]);
    }
  }

  lemma MarkStaysInRange(hashOf: int -> Option<Hash>, s: System)
    requires Inv(hashOf, s) && s.shared.start <= s.shared.end
    ensures s.shared.watermark.Some? ==> s.shared.watermark.value <= s.shared.end
  {
    if s.shared.watermark.Some? {
      assert s.shared.watermark.value in s.completed;
      assert Claimed(s.shared, s.shared.watermark.value);
    }
  }

  // ---- what the cursor is ----

  /** The cursor write that landed last. */
  ghost function LastLanded(hashOf: int -> Option<Hash>, s: System, actions: seq<Action>): Option<CursorWrite>
    requires CanRun(hashOf, s, actions)
    decreases |actions|
  {
    if actions == [] then None
    else
      LastLanded(hashOf, Next(hashOf, s, actions[0]), actions[1..])
        .Or(if actions[0].Land? then Some(s.workers[actions[0].i].write) else None)
  }

  lemma {:induction false} CursorIsLastLanded(hashOf: int -> Option<Hash>, s: System, actions: seq<Action>)
    requires CanRun(hashOf, s, actions)
    ensures Run(hashOf, s, actions).cursor == LastLanded(hashOf, s, actions).Or(s.cursor)
    decreases |actions|
  {
    if actions != [] {
      CursorIsLastLanded(hashOf, Next(hashOf, s, actions[0]), actions[1..]);
    }
  }

  /** A run that ends with every worker stopped and nothing thrown. */
  ghost predicate EndsQuietly(hashOf: int -> Option<Hash>, start: int, end: int, concurrency: int,
                              actions: seq<Action>) {
    && CanRun(hashOf, Start(start, end, concurrency), actions)
    && AllStopped(Run(hashOf, Start(start, end, concurrency), actions))
    && Run(hashOf, Start(start, end, concurrency), actions).thrown == map[]
  }

  ghost predicate PersistsTheEnd(hashOf: int -> Option<Hash>, start: int, end: int, concurrency: int,
                                 actions: seq<Action>)
    requires CanRun(hashOf, Start(start, end, concurrency), actions)
  {
    Run(hashOf, Start(start, end, concurrency), actions).cursor == Some(CursorWrite(end, hashOf(end)))
  }

  /** One run ends with its end persisted exactly when the write that landed last claims the end; writes
      before it may have landed in any order. */
  lemma LastWriteDecides(hashOf: int -> Option<Hash>, start: int, end: int, concurrency: int, actions: seq<Action>)
    requires EndsQuietly(hashOf, start, end, concurrency, actions)
    ensures var last := LastLanded(hashOf, Start(start, end, concurrency), actions);
            PersistsTheEnd(hashOf, start, end, concurrency, actions) <==> last.Some? && last.value.height == end
  {
    var s0 := Start(start, end, concurrency);
    CursorIsLastLanded(hashOf, s0, actions);
    StartHasInv(hashOf, start, end, concurrency);
    RunKeepsInv(hashOf, s0, actions);
  }

  // ---- a write held back ----

  /** `t` is where some run from `s` leads. */
  ghost predicate Leads(hashOf: int -> Option<Hash>, s: System, t: System) {
    exists actions :: CanRun(hashOf, s, actions) && Run(hashOf, s, actions) == t
  }

  lemma {:induction false} RunThenRun(hashOf: int -> Option<Hash>, s: System, a: seq<Action>, b: seq<Action>)
    requires CanRun(hashOf, s, a) && CanRun(hashOf, Run(hashOf, s, a), b)
    ensures CanRun(hashOf, s, a + b) && Run(hashOf, s, a + b) == Run(hashOf, Run(hashOf, s, a), b)
    decreases |a|
  {
    if a == [] {
      assert a + b == b;
    } else {
      RunThenRun(hashOf, Next(hashOf, s, a[0]), a[1..], b);
      assert (a + b)[0] == a[0] && (a + b)[1..] == a[1..] + b;
    }
  }

  lemma LeadsOn(hashOf: int -> Option<Hash>, s: System, t: System, u: System)
    requires Leads(hashOf, s, t) && Leads(hashOf, t, u)
    ensures Leads(hashOf, s, u)
  {
    var a :| CanRun(hashOf, s, a) && Run(hashOf, s, a) == t;
    var b :| CanRun(hashOf, t, b) && Run(hashOf, t, b) == u;
    RunThenRun(hashOf, s, a, b);
  }

  lemma NextLeads(hashOf: int -> Option<Hash>, s: System, a: Action)
    requires Enabled(s, a)
    ensures Leads(hashOf, s, Next(hashOf, s, a))
  {
    var t := Next(hashOf, s, a);
    assert [a][0] == a && [a][1..] == [];
    assert CanRun(hashOf, t, []) && Run(hashOf, t, []) == t;
    assert CanRun(hashOf, s, [a]) && Run(hashOf, s, [a]) == t;
  }

  /** The heights up to `k` are done, and only the write of the first one is still on its way. */
  ghost predicate HoldsFirst(hashOf: int -> Option<Hash>, s: System, k: int) {
    && |s.workers| >= 2 && s.shared.start <= k <= s.shared.end
    && s.shared.next == k + 1 && s.shared.watermark == Some(k) && s.shared.ahead == {}
    && s.shared.firstError.None? && s.thrown == map[]
    && s.workers[0] == Writing(s.shared.start, CursorWrite(s.shared.start, hashOf(s.shared.start)), false)
    && (forall i :: 1 <= i < |s.workers| ==> s.workers[i] == Ready)
  }

  /** A single completed height right behind the watermark becomes the watermark. */
  lemma AdvanceByOne(start: int, watermark: Option<int>, height: int)
    requires height == Candidate(start, watermark)
    ensures Advance(start, watermark, {height}) == (Some(height), {})
  {
    assert {height} - {height} == {};
    assert Advance(start, Some(height), {}) == (Some(height), {});
  }

  /** Worker 0 ingests the first height; its cursor write is issued and then takes its time. */
  lemma FirstIsHeld(hashOf: int -> Option<Hash>, start: int, end: int, concurrency: int) returns (s: System)
    requires start <= end && concurrency >= 2
    ensures Leads(hashOf, Start(start, end, concurrency), s) && HoldsFirst(hashOf, s, start)
    ensures s.shared.start == start && s.shared.end == end
  {
    var s0 := Start(start, end, concurrency);
    var s1 := Next(hashOf, s0, Claim(0));
    s := Next(hashOf, s1, Ingested(0));
    assert s1.shared.ahead + {start} == {start};
    AdvanceByOne(start, None, start);
    NextLeads(hashOf, s0, Claim(0));
    NextLeads(hashOf, s1, Ingested(0));
    LeadsOn(hashOf, s0, s1, s);
  }

  /** Worker 1 ingests the next height and its write lands at once. */
  lemma OneMoreWhileHeld(hashOf: int -> Option<Hash>, s: System, k: int) returns (t: System)
    requires HoldsFirst(hashOf, s, k) && k < s.shared.end
    ensures Leads(hashOf, s, t) && HoldsFirst(hashOf, t, k + 1)
    ensures t.shared.start == s.shared.start && t.shared.end == s.shared.end
  {
    var s1 := Next(hashOf, s, Claim(1));
    var s2 := Next(hashOf, s1, Ingested(1));
    assert s1.shared.ahead + {k + 1} == {k + 1};
    AdvanceByOne(s.shared.start, Some(k), k + 1);
    var s3 := Next(hashOf, s2, Land(1));
    t := Next(hashOf, s3, WriteDone(1));
    NextLeads(hashOf, s, Claim(1));
    NextLeads(hashOf, s1, Ingested(1));
    NextLeads(hashOf, s2, Land(1));
    NextLeads(hashOf, s3, WriteDone(1));
    LeadsOn(hashOf, s, s1, s2);
    LeadsOn(hashOf, s, s2, s3);
    LeadsOn(hashOf, s, s3, t);
  }

  lemma {:induction false} RestWhileHeld(hashOf: int -> Option<Hash>, s: System, k: int) returns (t: System)
    requires HoldsFirst(hashOf, s, k)
    ensures Leads(hashOf, s, t) && HoldsFirst(hashOf, t, s.shared.end)
    ensures t.shared.start == s.shared.start && t.shared.end == s.shared.end
    decreases s.shared.end - k
  {
    if k == s.shared.end {
      t := s;
      assert CanRun(hashOf, s, []) && Run(hashOf, s, []) == s;
    } else {
      var u := OneMoreWhileHeld(hashOf, s, k);
      t := RestWhileHeld(hashOf, u, k + 1);
      LeadsOn(hashOf, s, u, t);
    }
  }

  /** Nothing is left to do but to stop, one worker after the other. */
  lemma {:induction false} AllStop(hashOf: int -> Option<Hash>, s: System, n: nat) returns (t: System)
    requires n <= |s.workers| && !MayClaim(s.shared)
    requires forall i :: 0 <= i < |s.workers| ==> s.workers[i] == if i < n then Stopped else Ready
    ensures Leads(hashOf, s, t) && AllStopped(t) && t.cursor == s.cursor && t.thrown == s.thrown
    decreases |s.workers| - n
  {
    if n == |s.workers| {
      t := s;
      assert CanRun(hashOf, s, []) && Run(hashOf, s, []) == s;
    } else {
      var u := Next(hashOf, s, Stop(n));
      NextLeads(hashOf, s, Stop(n));
      t := AllStop(hashOf, u, n + 1);
      LeadsOn(hashOf, s, u, t);
    }
  }

  /** With two workers and two heights some run ends quietly with the cursor back at the first height: worker
      0's write of it lands after all the others. */
  lemma HeldWriteLeavesCursorBehind(hashOf: int -> Option<Hash>, start: int, end: int, concurrency: int)
    requires start < end && concurrency >= 2
    ensures exists actions :: EndsQuietly(hashOf, start, end, concurrency, actions)
                           && Run(hashOf, Start(start, end, concurrency), actions).cursor
                              == Some(CursorWrite(start, hashOf(start)))
  {
    var s0 := Start(start, end, concurrency);
    var s1 := FirstIsHeld(hashOf, start, end, concurrency);
    var s2 := RestWhileHeld(hashOf, s1, start);
    var s3 := Next(hashOf, s2, Land(0));
    var s4 := Next(hashOf, s3, WriteDone(0));
    var s5 := AllStop(hashOf, s4, 0);
    NextLeads(hashOf, s2, Land(0));
    NextLeads(hashOf, s3, WriteDone(0));
    LeadsOn(hashOf, s0, s1, s2);
    LeadsOn(hashOf, s0, s2, s3);
    LeadsOn(hashOf, s0, s3, s4);
    LeadsOn(hashOf, s0, s4, s5);
    var actions :| CanRun(hashOf, s0, actions) && Run(hashOf, s0, actions) == s5;
    assert EndsQuietly(hashOf, start, end, concurrency, actions);
  }

  /** Every quiet run of a non-empty range leaves its end persisted exactly when there is one worker, or only
      one height. */
  lemma EndIsPersistedExactly(hashOf: int -> Option<Hash>, start: int, end: int, concurrency: int)
    requires start <= end
    ensures (forall actions :: EndsQuietly(hashOf, start, end, concurrency, actions) ==>
                                 PersistsTheEnd(hashOf, start, end, concurrency, actions))
            <==> concurrency <= 1 || start == end
  {
    if concurrency <= 1 || start == end {
      forall actions | EndsQuietly(hashOf, start, end, concurrency, actions)
        ensures PersistsTheEnd(hashOf, start, end, concurrency, actions)
      {
        var s0 := Start(start, end, concurrency);
        StartHasInv(hashOf, start, end, concurrency);
        if start == end {
          OneHeightLandsInOrder(hashOf, s0, actions);
        } else {
          SingleWorkerLandsInOrder(hashOf, s0, actions);
        }
        OrderedWritesPersistTheEnd(hashOf, start, end, concurrency, actions);
      }
    } else {
      HeldWriteLeavesCursorBehind(hashOf, start, end, concurrency);
    }
  }
}
