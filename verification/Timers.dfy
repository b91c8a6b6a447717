/** The timer pool of `nfq2/timer.c` and the Lua calls `timer_set` and `timer_del` of `nfq2/lua.c`: timers whose
    callbacks may add, replace and delete any timers while the pool is being run. */
module Timers {
  const MaxTime: nat := 0x7FFF_FFFF_FFFF_FFFF
  const MinPeriod := 10

  /** One instance: `n` is different for every timer ever added, also under the same name. */
  datatype Timer = Timer(name: string, period: nat, oneshot: bool, next: nat, n: nat, fires: nat)

  /** The pool in the order of insertion, and the number of timers ever added. */
  datatype Pool = Pool(timers: seq<Timer>, timerN: nat)

  /** A call a callback makes; `now` is what the clock says then. */
  datatype Action = Set(name: string, period: int, oneshot: bool, now: nat) | Del(name: string)

  /** What one run of a callback does, and whether it ends without an error. */
  datatype Script = Script(actions: seq<Action>, ok: bool)

  ghost predicate ValidPool(p: Pool) {
    (forall i, j :: 0 <= i < j < |p.timers| ==> p.timers[i].name != p.timers[j].name && p.timers[i].n != p.timers[j].n) &&
    forall t :: t in p.timers ==> t.period >= MinPeriod && t.n <= p.timerN
  }

  /** The clock does not run backwards from `bt`. */
  ghost predicate After(s: Script, bt: nat) {
    forall a :: a in s.actions && a.Set? ==> a.now >= bt
  }

  // ----- The reference: fire the first timer that is due until none is -----

  function Index(ts: seq<Timer>, name: string): (i: nat)
    ensures i <= |ts| && (i < |ts| ==> ts[i].name == name) && forall j :: 0 <= j < i ==> ts[j].name != name
  {
    if ts == [] then 0 else if ts[0].name == name then 0 else 1 + Index(ts[1..], name)
  }

  function Without(ts: seq<Timer>, i: nat): seq<Timer> {
    if i < |ts| then ts[..i] + ts[i + 1..] else ts
  }

  ghost function Act(p: Pool, a: Action): Pool {
    var ts := Without(p.timers, Index(p.timers, a.name));
    match a
    case Set(name, period, oneshot, now) =>
      if period < MinPeriod then p
      else Pool(ts + [Timer(name, period, oneshot, now + period, p.timerN + 1, 0)], p.timerN + 1)
    case Del(_) => p.(timers := ts)
  }

  /** A call that changes the pool: any setting with a period that is not refused, and any deletion that finds its
      timer. */
  ghost predicate TakesEffect(p: Pool, a: Action) {
    if a.Set? then a.period >= MinPeriod else Index(p.timers, a.name) < |p.timers|
  }

  ghost predicate AnyEffect(p: Pool, actions: seq<Action>)
    decreases |actions|
  {
    actions != [] && (TakesEffect(p, actions[0]) || AnyEffect(Act(p, actions[0]), actions[1..]))
  }

  ghost function ActAll(p: Pool, actions: seq<Action>): Pool
    decreases |actions|
  {
    if actions == [] then p else ActAll(Act(p, actions[0]), actions[1..])
  }

  /** The instance as it is after it has fired. */
  ghost function Again(o: Timer, bt: nat): Timer { o.(next := bt + o.period, fires := o.fires + 1) }

  /** The instance that has fired is deleted or set to its next time, if it is still there. */
  ghost function Settle(p: Pool, t: Timer, ok: bool, bt: nat): Pool {
    var i := Index(p.timers, t.name);
    if i == |p.timers| || p.timers[i].n != t.n then p
    else if !ok || t.oneshot then p.(timers := Without(p.timers, i))
    else p.(timers := p.timers[i := p.timers[i].(next := bt + p.timers[i].period)])
  }

  ghost function Counted(p: Pool, i: nat): Pool
    requires i < |p.timers|
  {
    p.(timers := p.timers[i := p.timers[i].(fires := p.timers[i].fires + 1)])
  }

  ghost function Fire(p: Pool, i: nat, s: Script, bt: nat): Pool
    requires i < |p.timers|
  {
    Settle(ActAll(Counted(p, i), s.actions), p.timers[i], s.ok, bt)
  }

  ghost function FirstDue(ts: seq<Timer>, bt: nat): (i: nat)
    ensures i <= |ts| && (i < |ts| ==> ts[i].next <= bt) && forall j :: 0 <= j < i ==> ts[j].next > bt
  {
    if ts == [] then 0 else if ts[0].next <= bt then 0 else 1 + FirstDue(ts[1..], bt)
  }

  ghost function Due(p: Pool, bt: nat): set<Timer> {
    set t | t in p.timers && t.next <= bt
  }

  /** The pool in the end and the instances fired; `script(k)` is the k-th callback. */
  ghost function Drain(p: Pool, bt: nat, script: nat -> Script, k: nat): (Pool, seq<nat>)
    requires ValidPool(p) && forall j :: After(script(j), bt)
    decreases Due(p, bt)
  {
    var i := FirstDue(p.timers, bt);
    if i == |p.timers| then (p, [])
    else
      FireShrinks(p, i, script(k), bt);
      var r := Drain(Fire(p, i, script(k), bt), bt, script, k + 1);
      (r.0, [p.timers[i].n] + r.1)
  }

  // ----- What callbacks can do -----

  /** From `p` to `q` only instances that are not due at `bt` have been added, and none has been changed. */
  ghost predicate Evolves(p: Pool, q: Pool, bt: nat) {
    q.timerN >= p.timerN && ValidPool(q) &&
    forall t :: t in q.timers ==> if t.n <= p.timerN then t in p.timers else t.next > bt && t.fires == 0
  }

  lemma WithoutFacts(p: Pool, i: nat)
    requires ValidPool(p) && i < |p.timers|
    ensures ValidPool(p.(timers := Without(p.timers, i)))
    ensures forall t :: t in Without(p.timers, i) <==> t in p.timers && t != p.timers[i]
    ensures forall t :: t in Without(p.timers, i) ==> t.name != p.timers[i].name && t.n != p.timers[i].n
  {
    var w := Without(p.timers, i);
    forall t
      ensures t in w <==> t in p.timers && t != p.timers[i]
    {
      if t in p.timers && t != p.timers[i] {
        var j :| 0 <= j < |p.timers| && p.timers[j] == t;
        assert w[if j < i then j else j - 1] == t;
      }
    }
  }

  lemma ActEvolves(p: Pool, a: Action, bt: nat)
    requires ValidPool(p) && (a.Set? ==> a.now >= bt)
    ensures Evolves(p, Act(p, a), bt)
  {
    var i := Index(p.timers, a.name);
    if i < |p.timers| {
      WithoutFacts(p, i);
    }
    var w, q := Without(p.timers, i), Act(p, a);
    if a.Set? && a.period >= MinPeriod {
      var t := q.timers[|w|];
      assert q.timers == w + [t];
      assert forall j :: 0 <= j < |w| ==> q.timers[j] == w[j] && w[j] in w && w[j].name != t.name && w[j].n < t.n;
    }
  }

  lemma {:induction false} ActAllEvolves(p: Pool, actions: seq<Action>, bt: nat)
    requires ValidPool(p) && forall a :: a in actions && a.Set? ==> a.now >= bt
    ensures Evolves(p, ActAll(p, actions), bt)
    decreases |actions|
  {
    if actions != [] {
      var q := Act(p, actions[0]);
      ActEvolves(p, actions[0], bt);
      ActAllEvolves(q, actions[1..], bt);
    } else {
    }
  }

  /** The instances after one firing: those of `p` except the fired one, which is gone or set to its next time,
      and new ones that are not due. */
  ghost predicate Fired(p: Pool, i: nat, s: Script, q: Pool, bt: nat)
    requires i < |p.timers|
  {
    var f := p.timers[i];
    q.timerN >= p.timerN && ValidPool(q) &&
    forall t :: t in q.timers ==>
      if t.n > p.timerN then t.next > bt && t.fires == 0
      else if t.n == f.n then s.ok && !f.oneshot && t == Again(f, bt)
      else t in p.timers
  }

  lemma CountedValid(p: Pool, i: nat)
    requires ValidPool(p) && i < |p.timers|
    ensures ValidPool(Counted(p, i))
    ensures forall t :: t in Counted(p, i).timers ==>
      if t.n == p.timers[i].n then t == Counted(p, i).timers[i] else t in p.timers
  {
    var c := Counted(p, i).timers;
    forall t | t in c
      ensures t.period >= MinPeriod && t.n <= p.timerN && if t.n == p.timers[i].n then t == c[i] else t in p.timers
    {
      var j :| 0 <= j < |c| && c[j] == t;
      assert p.timers[j] in p.timers;
    }
  }

  lemma SettleFacts(p: Pool, t: Timer, ok: bool, bt: nat)
    requires ValidPool(p) && forall u :: u in p.timers && u.n == t.n ==> u.name == t.name
    ensures var q := Settle(p, t, ok, bt);
            ValidPool(q) && q.timerN == p.timerN &&
            forall u :: u in q.timers ==>
              if u.n != t.n then u in p.timers
              else ok && !t.oneshot && u.next == bt + u.period && exists v :: v in p.timers && u == v.(next := u.next)
  {
    var i, q := Index(p.timers, t.name), Settle(p, t, ok, bt);
    if i < |p.timers| && p.timers[i].n == t.n {
      if !ok || t.oneshot {
        WithoutFacts(p, i);
      } else {
        forall u | u in q.timers
          ensures u.period >= MinPeriod && u.n <= p.timerN
          ensures if u.n != t.n then u in p.timers
                  else u.next == bt + u.period && exists v :: v in p.timers && u == v.(next := u.next)
        {
          var j :| 0 <= j < |q.timers| && q.timers[j] == u;
          assert p.timers[j] in p.timers;
        }
      }
    } else {
      assert forall u :: u in p.timers ==> u.n != t.n;
    }
  }

  lemma FireFacts(p: Pool, i: nat, s: Script, bt: nat)
    requires ValidPool(p) && i < |p.timers| && After(s, bt)
    ensures Fired(p, i, s, Fire(p, i, s, bt), bt)
  {
    var c := Counted(p, i);
    var q := ActAll(c, s.actions);
    CountedValid(p, i);
    ActAllEvolves(c, s.actions, bt);
    assert p.timers[i] in p.timers;
    SettleFacts(q, p.timers[i], s.ok, bt);
  }

  lemma FireShrinks(p: Pool, i: nat, s: Script, bt: nat)
    requires ValidPool(p) && i < |p.timers| && p.timers[i].next <= bt && After(s, bt)
    ensures ValidPool(Fire(p, i, s, bt)) && Due(Fire(p, i, s, bt), bt) < Due(p, bt)
  {
    hide Fire;
    FireFacts(p, i, s, bt);
    var q := Fire(p, i, s, bt);
    assert forall t :: t in Due(q, bt) ==> t.n != p.timers[i].n && t in Due(p, bt);
    assert p.timers[i] in Due(p, bt) && p.timers[i] !in Due(q, bt);
  }

  // ----- What a run does -----

  /** The record of an instance that was in `p` and is still there after a run: unchanged if it was not due, and
      otherwise fired once. */
  ghost predicate Continues(p: Pool, t: Timer, log: seq<nat>, bt: nat) {
    exists o :: o in p.timers && Continued(o, t, log, bt)
  }

  ghost predicate Continued(o: Timer, t: Timer, log: seq<nat>, bt: nat) {
    if o.next > bt then t == o
    else o.n in log && !o.oneshot && t == Again(o, bt)
  }

  ghost predicate WasDue(p: Pool, n: nat, bt: nat) {
    exists o :: o in p.timers && o.n == n && o.next <= bt
  }

  /** No instance fires twice, only those due at the start fire, and the rest of the pool is as it was, up to
      what callbacks have deleted and added. */
  ghost predicate Outcome(p: Pool, q: Pool, log: seq<nat>, bt: nat) {
    ValidPool(q) && q.timerN >= p.timerN && (forall t :: t in q.timers ==> t.next > bt) &&
    (forall i, j :: 0 <= i < j < |log| ==> log[i] != log[j]) && (forall n :: n in log ==> WasDue(p, n, bt)) &&
    forall t :: t in q.timers ==> if t.n > p.timerN then t.fires == 0 else Continues(p, t, log, bt)
  }

  lemma WasDueIs(p: Pool, o: Timer, bt: nat)
    requires ValidPool(p) && o in p.timers
    ensures WasDue(p, o.n, bt) <==> o.next <= bt
  {
    forall u | u in p.timers && u.n == o.n
      ensures u == o
    {
    }
  }

  lemma {:induction false} DrainOutcome(p: Pool, bt: nat, script: nat -> Script, k: nat)
    requires ValidPool(p) && forall j :: After(script(j), bt)
    ensures Outcome(p, Drain(p, bt, script, k).0, Drain(p, bt, script, k).1, bt)
    decreases Due(p, bt)
  {
    hide Fire, Evolves;
    var i := FirstDue(p.timers, bt);
    if i == |p.timers| {
      assert forall t :: t in p.timers ==> Continued(t, t, [], bt);
    } else {
      var s := script(k);
      FireShrinks(p, i, s, bt);
      FireFacts(p, i, s, bt);
      var q := Fire(p, i, s, bt);
      DrainOutcome(q, bt, script, k + 1);
      var (r, log) := Drain(q, bt, script, k + 1);
      OutcomeStep(p, i, s, q, r, log, bt);
    }
  }

  lemma OutcomeStep(p: Pool, i: nat, s: Script, q: Pool, r: Pool, log: seq<nat>, bt: nat)
    requires ValidPool(p) && i < |p.timers| && p.timers[i].next <= bt && Fired(p, i, s, q, bt) && Outcome(q, r, log, bt)
    ensures Outcome(p, r, [p.timers[i].n] + log, bt)
  {
    var f := p.timers[i];
    var all := [f.n] + log;
    assert f in p.timers && f.period >= MinPeriod;
    forall n | n in all
      ensures WasDue(p, n, bt)
    {
      if n in log {
        DueBefore(p, i, s, q, n, bt);
      }
    }
    forall a, b | 0 <= a < b < |all|
      ensures all[a] != all[b]
    {
      assert all[b] == log[b - 1] && log[b - 1] in log;
      DueBefore(p, i, s, q, all[b], bt);
    }
    forall t | t in r.timers
      ensures if t.n > p.timerN then t.fires == 0 else Continues(p, t, all, bt)
    {
      if t.n <= q.timerN {
        var o :| o in q.timers && Continued(o, t, log, bt);
        if o.n <= p.timerN {
          var u := if o.n == f.n then f else o;
          assert u in p.timers && Continued(u, t, all, bt);
        }
      }
    }
  }

  lemma DueBefore(p: Pool, i: nat, s: Script, q: Pool, n: nat, bt: nat)
    requires ValidPool(p) && i < |p.timers| && Fired(p, i, s, q, bt) && WasDue(q, n, bt)
    ensures WasDue(p, n, bt) && n != p.timers[i].n
  {
    var o :| o in q.timers && o.n == n && o.next <= bt;
    assert p.timers[i] in p.timers;
    assert o in p.timers;
  }

  /** A call that deletes or replaces the timer `name` if there is one. */
  ghost predicate Hits(a: Action, name: string) {
    a.name == name && (a.Set? ==> a.period >= MinPeriod)
  }

  ghost predicate NamedIn(s: Script, name: string) {
    exists a :: a in s.actions && Hits(a, name)
  }

  /** One of the `n` callbacks from the `k`-th on deletes or replaces the timer `name`. */
  ghost predicate Named(name: string, script: nat -> Script, k: nat, n: nat) {
    exists j: nat :: k <= j < k + n && NamedIn(script(j), name)
  }

  lemma ActKeeps(p: Pool, a: Action, o: Timer)
    requires ValidPool(p) && o in p.timers && !Hits(a, o.name)
    ensures o in Act(p, a).timers
  {
    var i := Index(p.timers, a.name);
    if i < |p.timers| {
      WithoutFacts(p, i);
    }
  }

  lemma {:induction false} ActAllKeeps(p: Pool, actions: seq<Action>, bt: nat, o: Timer)
    requires ValidPool(p) && (forall a :: a in actions && a.Set? ==> a.now >= bt) && o in p.timers
    requires forall a :: a in actions ==> !Hits(a, o.name)
    ensures o in ActAll(p, actions).timers
    decreases |actions|
  {
    hide Act, Hits;
    if actions != [] {
      ActEvolves(p, actions[0], bt);
      ActKeeps(p, actions[0], o);
      ActAllKeeps(Act(p, actions[0]), actions[1..], bt, o);
    } else {
    }
  }

  /** The timer that has fired is set to its next time if it is still there, and no other is touched. */
  lemma SettleKeeps(p: Pool, t: Timer, ok: bool, bt: nat, o: Timer)
    requires ValidPool(p) && o in p.timers
    ensures o.n != t.n ==> o in Settle(p, t, ok, bt).timers
    ensures o.n == t.n && o.name == t.name && ok && !t.oneshot ==> o.(next := bt + o.period) in Settle(p, t, ok, bt).timers
  {
    var i, q := Index(p.timers, t.name), Settle(p, t, ok, bt);
    var j :| 0 <= j < |p.timers| && p.timers[j] == o;
    if i < |p.timers| && p.timers[i].n == t.n {
      if !ok || t.oneshot {
        WithoutFacts(p, i);
      } else {
        assert q.timers[j] == if j == i then o.(next := bt + o.period) else o;
      }
    }
  }

  lemma FireKeeps(p: Pool, i: nat, s: Script, bt: nat, o: Timer)
    requires ValidPool(p) && i < |p.timers| && After(s, bt) && o in p.timers && !NamedIn(s, o.name)
    ensures o != p.timers[i] ==> o in Fire(p, i, s, bt).timers
    ensures o == p.timers[i] && s.ok && !o.oneshot ==> Again(o, bt) in Fire(p, i, s, bt).timers
  {
    hide Settle, Hits, Act, ActAll;
    var c, f := Counted(p, i), p.timers[i];
    var j :| 0 <= j < |p.timers| && p.timers[j] == o;
    var u := if o == f then f.(fires := f.fires + 1) else o;
    CountedValid(p, i);
    assert c.timers[if o == f then i else j] == u;
    ActAllKeeps(c, s.actions, bt, u);
    ActAllEvolves(c, s.actions, bt);
    SettleKeeps(ActAll(c, s.actions), f, s.ok, bt, u);
    assert o != f ==> o.n != f.n;
  }

  lemma NamedStep(name: string, script: nat -> Script, k: nat, n: nat)
    requires !Named(name, script, k, n + 1)
    ensures !NamedIn(script(k), name) && !Named(name, script, k + 1, n)
  {
  }

  /** What becomes of an instance that no callback names: it stays as it is if it is not due; otherwise it fires,
      and stays with its next time if it repeats and its callback has not failed. */
  ghost predicate Fate(o: Timer, q: Pool, log: seq<nat>, bt: nat, script: nat -> Script, k: nat) {
    if o.next > bt then o in q.timers
    else o.n in log && forall i: nat :: i < |log| && log[i] == o.n && !o.oneshot && script(k + i).ok ==> Again(o, bt) in q.timers
  }

  lemma {:induction false} DrainFate(p: Pool, bt: nat, script: nat -> Script, k: nat, o: Timer)
    requires ValidPool(p) && (forall j :: After(script(j), bt)) && o in p.timers
    requires !Named(o.name, script, k, |Drain(p, bt, script, k).1|)
    ensures Fate(o, Drain(p, bt, script, k).0, Drain(p, bt, script, k).1, bt, script, k)
    decreases Due(p, bt)
  {
    hide Fire, Named, NamedIn;
    var i := FirstDue(p.timers, bt);
    if i < |p.timers| {
      var (s, f) := (script(k), p.timers[i]);
      FireShrinks(p, i, s, bt);
      var q := Fire(p, i, s, bt);
      var (r, log) := Drain(q, bt, script, k + 1);
      NamedStep(o.name, script, k, |log|);
      FireKeeps(p, i, s, bt, o);
      DrainOutcome(p, bt, script, k);
      assert Drain(p, bt, script, k) == (r, [f.n] + log);
      if o != f {
        DrainFate(q, bt, script, k + 1, o);
        FateStep(o, r, f.n, log, bt, script, k);
      } else if s.ok && !o.oneshot {
        DrainFate(q, bt, script, k + 1, Again(o, bt));
        FiredFate(o, r, log, bt, script, k);
      } else {
        FiredFate(o, r, log, bt, script, k);
      }
    }
  }

  lemma FateStep(o: Timer, q: Pool, n: nat, log: seq<nat>, bt: nat, script: nat -> Script, k: nat)
    requires Fate(o, q, log, bt, script, k + 1) && o.n != n
    ensures Fate(o, q, [n] + log, bt, script, k)
  {
    forall i: nat | i < |[n] + log| && ([n] + log)[i] == o.n && o.next <= bt && !o.oneshot && script(k + i).ok
      ensures Again(o, bt) in q.timers
    {
      assert log[i - 1] == o.n && script(k + 1 + (i - 1)).ok;
    }
  }

  lemma FiredFate(o: Timer, q: Pool, log: seq<nat>, bt: nat, script: nat -> Script, k: nat)
    requires o.next <= bt && (forall i, j :: 0 <= i < j < |[o.n] + log| ==> ([o.n] + log)[i] != ([o.n] + log)[j])
    requires !o.oneshot && script(k).ok ==> Again(o, bt) in q.timers
    ensures Fate(o, q, [o.n] + log, bt, script, k)
  {
    var all := [o.n] + log;
    assert all[0] == o.n;
  }

  /** An instance that was due has fired exactly once, unless a callback has deleted or replaced it; one that repeats
      is left, with its next time counted from `bt`, unless its callback has failed or a callback has deleted or
      replaced it; a one-shot timer that fired is gone. */
  lemma DueFires(p: Pool, bt: nat, script: nat -> Script, k: nat, o: Timer)
    requires ValidPool(p) && (forall j :: After(script(j), bt)) && o in p.timers && o.next <= bt
    ensures var (q, log) := Drain(p, bt, script, k);
            (forall t :: t in q.timers && t.n == o.n ==>
               o.n in log && !o.oneshot && t == o.(next := bt + o.period, fires := o.fires + 1)) &&
            (o.n in log ==> multiset(log)[o.n] == 1) &&
            (Named(o.name, script, k, |log|) ||
             (o.n in log && forall i: nat :: i < |log| && log[i] == o.n && !o.oneshot && script(k + i).ok ==>
                           o.(next := bt + o.period, fires := o.fires + 1) in q.timers))
  {
    hide Drain, Named;
    DrainOutcome(p, bt, script, k);
    var (q, log) := Drain(p, bt, script, k);
    forall t | t in q.timers && t.n == o.n
      ensures o.n in log && !o.oneshot && t == Again(o, bt)
    {
      var u :| u in p.timers && Continued(u, t, log, bt);
      assert u == o;
    }
    OnceInLog(log, o.n);
    if !Named(o.name, script, k, |log|) {
      DrainFate(p, bt, script, k, o);
    }
  }

  lemma {:induction false} OnceInLog(log: seq<nat>, n: nat)
    requires forall i, j :: 0 <= i < j < |log| ==> log[i] != log[j]
    ensures n in log ==> multiset(log)[n] == 1
  {
    if log != [] {
      assert log == [log[0]] + log[1..];
      OnceInLog(log[1..], n);
      assert n in multiset(log[1..]) <==> n in log[1..];
    }
  }

  /** A timer that is not due is not touched: it does not fire, and it is still there and the same unless a callback
      has deleted or replaced it. */
  lemma NotDueStays(p: Pool, bt: nat, script: nat -> Script, k: nat, o: Timer)
    requires ValidPool(p) && (forall j :: After(script(j), bt)) && o in p.timers && o.next > bt
    ensures var (q, log) := Drain(p, bt, script, k);
            o.n !in log && (forall t :: t in q.timers && t.n == o.n ==> t == o) &&
            (o in q.timers || Named(o.name, script, k, |log|))
  {
    hide Drain, Named;
    DrainOutcome(p, bt, script, k);
    var (q, log) := Drain(p, bt, script, k);
    WasDueIs(p, o, bt);
    forall t | t in q.timers && t.n == o.n
      ensures t == o
    {
      var u :| u in p.timers && Continued(u, t, log, bt);
      assert u == o;
    }
    if !Named(o.name, script, k, |log|) {
      DrainFate(p, bt, script, k, o);
    }
  }

  // ----- What the calls of callbacks do -----

  /** The timers with other names, in their order. */
  ghost function Others(ts: seq<Timer>, name: string): seq<Timer> {
    if ts == [] then []
    else
      var u, t := Others(ts[..|ts| - 1], name), ts[|ts| - 1];
      if t.name == name then u else u + [t]
  }

  lemma {:induction false} OthersAll(ts: seq<Timer>, name: string)
    requires forall t :: t in ts ==> t.name != name
    ensures Others(ts, name) == ts
  {
    if ts != [] {
      OthersAll(ts[..|ts| - 1], name);
    }
  }

  lemma {:induction false} OthersBoth(a: seq<Timer>, b: seq<Timer>, name: string)
    ensures Others(a + b, name) == Others(a, name) + Others(b, name)
  {
    if b == [] {
      assert a + b == a;
    } else {
      OthersBoth(a, b[..|b| - 1], name);
      assert (a + b)[..|a + b| - 1] == a + b[..|b| - 1];
    }
  }

  /** Names are different, so that one place is all that a name has. */
  lemma WithoutOthers(p: Pool, name: string)
    requires ValidPool(p)
    ensures Without(p.timers, Index(p.timers, name)) == Others(p.timers, name)
  {
    var i := Index(p.timers, name);
    if i < |p.timers| {
      var a, t, b := p.timers[..i], p.timers[i], p.timers[i + 1..];
      assert p.timers == a + [t] + b;
      OthersBoth(a + [t], b, name);
      OthersBoth(a, [t], name);
      assert [t][..0] == [];
      OthersAll(a, name);
      OthersAll(b, name);
    } else {
      OthersAll(p.timers, name);
    }
  }

  /** An instance that is not in the pool never fires and does not come back. */
  lemma GoneStays(p: Pool, bt: nat, script: nat -> Script, k: nat, n: nat)
    requires ValidPool(p) && (forall j :: After(script(j), bt)) && n <= p.timerN && forall t :: t in p.timers ==> t.n != n
    ensures var (q, log) := Drain(p, bt, script, k); n !in log && forall t :: t in q.timers ==> t.n != n
  {
    hide Drain;
    DrainOutcome(p, bt, script, k);
  }

  /** After the calls of a callback of which one names `name`, no instance from before has it. */
  lemma {:induction false} ActAllHits(p: Pool, actions: seq<Action>, bt: nat, name: string)
    requires ValidPool(p) && (forall a :: a in actions && a.Set? ==> a.now >= bt) && exists a :: a in actions && Hits(a, name)
    ensures forall t :: t in ActAll(p, actions).timers && t.n <= p.timerN ==> t in p.timers && t.name != name
    decreases |actions|
  {
    hide Without;
    var a := actions[0];
    var q := Act(p, a);
    ActEvolves(p, a, bt);
    ActAllEvolves(q, actions[1..], bt);
    if Hits(a, name) {
      ActHits(p, a);
    } else {
      assert exists b :: b in actions[1..] && Hits(b, name);
      ActAllHits(q, actions[1..], bt, name);
    }
  }

  lemma ActHits(p: Pool, a: Action)
    requires ValidPool(p) && Hits(a, a.name)
    ensures forall t :: t in Act(p, a).timers && t.n <= p.timerN ==> t.name != a.name
  {
    var i := Index(p.timers, a.name);
    if i < |p.timers| {
      WithoutFacts(p, i);
    }
  }

  lemma FireHits(p: Pool, i: nat, s: Script, bt: nat, o: Timer)
    requires ValidPool(p) && i < |p.timers| && After(s, bt) && o in p.timers && NamedIn(s, o.name)
    ensures forall t :: t in Fire(p, i, s, bt).timers ==> t.n != o.n
  {
    hide Settle, Hits, Act, ActAll;
    var c, f := Counted(p, i), p.timers[i];
    CountedValid(p, i);
    ActAllHits(c, s.actions, bt, o.name);
    ActAllEvolves(c, s.actions, bt);
    var q := ActAll(c, s.actions);
    forall t | t in q.timers
      ensures t.n != o.n
    {
      assert t.n <= c.timerN && t.n == o.n ==> t.name == o.name;
    }
    assert forall u :: u in q.timers && u.n == f.n ==> u.name == f.name;
    SettleFacts(q, f, s.ok, bt);
  }

  lemma DrainFirst(p: Pool, bt: nat, script: nat -> Script, k: nat) returns (i: nat)
    requires ValidPool(p) && (forall i :: After(script(i), bt)) && Drain(p, bt, script, k).1 != []
    ensures i < |p.timers| && ValidPool(Fire(p, i, script(k), bt))
    ensures var r := Drain(Fire(p, i, script(k), bt), bt, script, k + 1); Drain(p, bt, script, k) == (r.0, [p.timers[i].n] + r.1)
  {
    hide Fire;
    i := FirstDue(p.timers, bt);
    FireShrinks(p, i, script(k), bt);
  }

  lemma SameInstance(p: Pool, i: nat, o: Timer)
    requires ValidPool(p) && i < |p.timers| && o in p.timers && o.n == p.timers[i].n
    ensures o == p.timers[i]
  {
  }

  lemma FireNames(p: Pool, i: nat, s: Script, bt: nat, o: Timer)
    requires ValidPool(p) && i < |p.timers| && After(s, bt) && o in p.timers
    ensures var q := Fire(p, i, s, bt);
            q.timerN >= p.timerN >= o.n && forall u :: u in q.timers && u.n == o.n ==> u.name == o.name && u.oneshot == o.oneshot
  {
    hide Fire;
    FireFacts(p, i, s, bt);
  }

  /** The timer that fires does not come back if its callback fails or if it is to fire once only. */
  lemma FireEnds(p: Pool, i: nat, s: Script, bt: nat)
    requires ValidPool(p) && i < |p.timers| && After(s, bt) && (p.timers[i].oneshot || !s.ok)
    ensures forall t :: t in Fire(p, i, s, bt).timers ==> t.n != p.timers[i].n
  {
    hide Fire;
    FireFacts(p, i, s, bt);
    assert p.timers[i] in p.timers;
  }

  /** The instance `o` is in the pool, and the `j`-th callback of the run deletes or replaces the timer of its name, or
      is that of `o` and fails, or is that of a one-shot `o`: it does not fire any more after this callback and is
      not left. */
  lemma {:induction false} EndedGone(p: Pool, bt: nat, script: nat -> Script, k: nat, o: Timer, j: nat)
    requires ValidPool(p) && (forall i :: After(script(i), bt)) && o in p.timers
    requires j < |Drain(p, bt, script, k).1|
    requires NamedIn(script(k + j), o.name) || (Drain(p, bt, script, k).1[j] == o.n && (o.oneshot || !script(k + j).ok))
    ensures var (q, log) := Drain(p, bt, script, k); o.n !in log[j + 1..] && forall t :: t in q.timers ==> t.n != o.n
    decreases j
  {
    hide Fire, NamedIn, Drain, ValidPool, FirstDue;
    var i := DrainFirst(p, bt, script, k);
    var (s, f) := (script(k), p.timers[i]);
    FireNames(p, i, s, bt, o);
    var q := Fire(p, i, s, bt);
    var log := Drain(q, bt, script, k + 1).1;
    assert ([f.n] + log)[j + 1..] == log[j..];
    if j == 0 {
      if NamedIn(s, o.name) {
        FireHits(p, i, s, bt, o);
      } else {
        SameInstance(p, i, o);
        FireEnds(p, i, s, bt);
      }
      GoneStays(q, bt, script, k + 1, o.n);
    } else if u :| u in q.timers && u.n == o.n {
      EndedGone(q, bt, script, k + 1, u, j - 1);
      assert log[j..] == log[j - 1 + 1..];
    } else {
      GoneStays(q, bt, script, k + 1, o.n);
    }
  }

  // ----- The least next time -----

  function MinNext(ts: seq<Timer>): nat {
    if ts == [] then MaxTime
    else
      var m, t := MinNext(ts[..|ts| - 1]), ts[|ts| - 1];
      if t.next < m then t.next else m
  }

  /** The least of the times up to `MaxTime`, and `MaxTime` if all are beyond: it is a next time exactly if there is
      one up to `MaxTime`. */
  lemma {:induction false} MinNextLeast(ts: seq<Timer>)
    ensures MinNext(ts) <= 0x7FFF_FFFF_FFFF_FFFF && forall t :: t in ts ==> MinNext(ts) <= t.next
    ensures MinNext(ts) == 0x7FFF_FFFF_FFFF_FFFF || exists t :: t in ts && t.next == MinNext(ts)
    ensures (exists t :: t in ts && t.next == MinNext(ts)) <==> exists t :: t in ts && t.next <= 0x7FFF_FFFF_FFFF_FFFF
  {
    if ts != [] {
      var u, t := ts[..|ts| - 1], ts[|ts| - 1];
      MinNextLeast(u);
      assert ts == u + [t];
      assert forall v :: v in u ==> v in ts;
      assert t in ts;
    }
  }

  /** A pool whose only timer is due later than `MaxTime`, which is what the search then gives. */
  lemma MinNextExample()
    ensures var t := Timer("a", 10, false, 0x7FFF_FFFF_FFFF_FFFF + 5, 1, 0); MinNext([t]) == 0x7FFF_FFFF_FFFF_FFFF != t.next
  {
    var ts := [Timer("a", 10, false, MaxTime + 5, 1, 0)];
    assert ts[..0] == [];
  }

  // ----- The pool in memory -----

  class TimerPool {
    var timers: seq<Timer>
    var timerN: nat
    var dirty: bool

    constructor ()
      ensures State() == Pool([], 0) && !dirty
    {
      timers, timerN, dirty := [], 0, false;
    }

    function State(): Pool
      reads this
    {
      Pool(timers, timerN)
    }

    /** `TimerPoolSearch`. */
    method Search(name: string) returns (i: nat)
      ensures i == Index(timers, name)
    {
      i := 0;
      assert timers[0..] == timers;
      while i < |timers| && timers[i].name != name
        invariant i <= |timers| && Index(timers, name) == i + Index(timers[i..], name)
      {
        assert timers[i..][1..] == timers[i + 1..];
        i := i + 1;
      }
    }

    /** `TimerPoolDel`. */
    method Delete(i: nat)
      requires i < |timers|
      modifies this`timers
      ensures timers == Without(old(timers), i)
    {
      timers := timers[..i] + timers[i + 1..];
    }

    /** `TimerPoolAdd`. */
    method Add(name: string, period: nat, oneshot: bool, now: nat)
      modifies this`timers, this`timerN
      ensures timerN == old(timerN) + 1 && timers == old(timers) + [Timer(name, period, oneshot, now + period, timerN, 0)]
    {
      timerN := timerN + 1;
      timers := timers + [Timer(name, period, oneshot, now + period, timerN, 0)];
    }

    /** `luacall_timer_set` after its checks of arguments other than the period. */
    method TimerSet(name: string, period: int, oneshot: bool, now: nat)
      modifies this
      ensures State() == Act(old(State()), Set(name, period, oneshot, now)) && (!dirty ==> State() == old(State()))
      ensures dirty == (old(dirty) || TakesEffect(old(State()), Set(name, period, oneshot, now))) == (old(dirty) || period >= 10)
      ensures ValidPool(old(State())) && period >= 10 ==>
                timerN == old(timerN) + 1 && timers == Others(old(timers), name) + [Timer(name, period, oneshot, now + period, timerN, 0)]
      ensures period < 10 ==> State() == old(State()) && dirty == old(dirty)
    {
      if ValidPool(State()) {
        WithoutOthers(State(), name);
      }
      if period < MinPeriod {
        return;
      }
      var i := Search(name);
      if i < |timers| {
        Delete(i);
        dirty := true;
      }
      Add(name, period, oneshot, now);
      dirty := true;
    }

    /** `luacall_timer_del`. */
    method TimerDel(name: string) returns (found: bool)
      modifies this
      ensures State() == Act(old(State()), Del(name)) && (!dirty ==> State() == old(State()))
      ensures dirty == (old(dirty) || TakesEffect(old(State()), Del(name))) == (old(dirty) || found)
      ensures found == exists t :: t in old(timers) && t.name == name
      ensures ValidPool(old(State())) ==> timers == Others(old(timers), name) && timerN == old(timerN)
    {
      if ValidPool(State()) {
        WithoutOthers(State(), name);
      }
      var i := Search(name);
      found := i < |timers|;
      if found {
        Delete(i);
        dirty := true;
      }
    }

    /** `TimerPoolRunTimer`: counts the firing and runs the callback. */
    method RunTimer(i: nat, s: Script) returns (ok: bool)
      requires i < |timers|
      modifies this
      ensures ok == s.ok && State() == ActAll(Counted(old(State()), i), s.actions)
      ensures dirty == (old(dirty) || AnyEffect(Counted(old(State()), i), s.actions))
      ensures !dirty ==> State() == Counted(old(State()), i)
    {
      hide Act, TakesEffect;
      timers := timers[i := timers[i].(fires := timers[i].fires + 1)];
      ghost var c := State();
      var j := 0;
      assert s.actions[0..] == s.actions;
      while j < |s.actions|
        invariant j <= |s.actions| && ActAll(State(), s.actions[j..]) == ActAll(c, s.actions)
        invariant (dirty || AnyEffect(State(), s.actions[j..])) == (old(dirty) || AnyEffect(c, s.actions))
        invariant !dirty ==> State() == c
      {
        assert s.actions[j..][0] == s.actions[j] && s.actions[j..][1..] == s.actions[j + 1..];
        match s.actions[j] {
          case Set(name, period, oneshot, now) => TimerSet(name, period, oneshot, now);
          case Del(name) => var _ := TimerDel(name);
        }
        j := j + 1;
      }
      ok := s.ok;
    }

    /** The body of the loop for a timer that is due; `kept` says whether it is still at index `i`. */
    method FireTimer(i: nat, s: Script, bt: nat) returns (kept: bool)
      requires ValidPool(State()) && i < |timers| && !dirty
      modifies this
      ensures State() == Fire(old(State()), i, s, bt) && dirty == AnyEffect(Counted(old(State()), i), s.actions)
      ensures !dirty ==> timers == if kept then old(timers)[i := Again(old(timers[i]), bt)]
                                   else Without(old(timers), i)
    {
      hide Act, ActAll, AnyEffect, ValidPool, Index, Without, Counted, Again, Settle, Fire;
      var t := timers[i];
      ghost var p := State();
      UnchangedPool(p, i, bt);
      var ok := RunTimer(i, s);
      ghost var q := State();
      FireIs(p, i, s, bt, q);
      var at := i;
      if dirty {
        at := Search(t.name);
        if at == |timers| || timers[at].n != t.n {
          return false;
        }
      }
      if !ok || t.oneshot {
        Delete(at);
        return false;
      }
      timers := timers[at := timers[at].(next := bt + timers[at].period)];
      kept := true;
    }

    /** `TimerPoolNext`. */
    method Next() returns (mintime: nat)
      modifies this`dirty
      ensures !dirty && mintime == if timers == [] then 0 else MinNext(timers)
    {
      dirty := false;
      if timers == [] {
        return 0;
      }
      mintime := MaxTime;
      var i := 0;
      while i < |timers|
        invariant i <= |timers| && mintime == MinNext(timers[..i]) && !dirty
      {
        assert timers[..i + 1][..i] == timers[..i];
        if timers[i].next < mintime {
          mintime := timers[i].next;
        }
        i := i + 1;
      }
      assert timers[..i] == timers;
    }

    /** The loop over the pool, up to its end or to a callback that has changed the pool; `last` and `at` are the pool
        and the timer at the last firing. */
    method Sweep(bt: nat, script: nat -> Script, k0: nat, ghost log0: seq<nat>)
      returns (again: bool, mintime: nat, k: nat, ghost log: seq<nat>, ghost last: Pool, ghost at: nat)
      requires ValidPool(State()) && forall j :: After(script(j), bt)
      modifies this
      ensures ValidPool(State()) && Progress(old(State()), log0, k0, State(), log, k, bt, script)
      ensures Due(State(), bt) <= Due(old(State()), bt)
      ensures if again then Due(State(), bt) < Due(old(State()), bt)
              else FirstDue(timers, bt) == |timers| && mintime == MinNext(timers)
      ensures again == dirty && k >= k0 && again == (k > k0 && at < |last.timers| && AnyEffect(Counted(last, at), script(k - 1).actions))
      ensures again ==> State() == Fire(last, at, script(k - 1), bt)
    {
      hide Fire, ValidPool, Drain, Due, FirstDue, After, Progress, AnyEffect, Counted, Without, Again, MinNext;
      again, mintime, dirty, k, log, last, at := false, MaxTime, false, k0, log0, State(), 0;
      ghost var due := Due(State(), bt);
      NoProgress(State(), log0, k0, bt, script);
      MinNextSnoc(timers, 0);
      var i := 0;
      while i < |timers| && !again
        invariant (!again ==> i <= |timers|) && again == dirty && ValidPool(State()) && k >= k0
        invariant again == (k > k0 && at < |last.timers| && AnyEffect(Counted(last, at), script(k - 1).actions))
        invariant again ==> State() == Fire(last, at, script(k - 1), bt)
        invariant Progress(old(State()), log0, k0, State(), log, k, bt, script)
        invariant !again ==> mintime == MinNext(timers[..i]) && forall j :: 0 <= j < i ==> timers[j].next > bt
        invariant Due(State(), bt) <= due && (again ==> Due(State(), bt) < due)
        decreases Due(State(), bt), |timers| - i, !again
      {
        ghost var p := State();
        var kept := true;
        if bt >= timers[i].next {
          var t := timers[i];
          LeftBefore(p, i, bt);
          FireShrinks(p, i, script(k), bt);
          FirstDueIs(timers, i, bt);
          ProgressStep(old(State()), log0, k0, p, log, k, bt, script, i);
          kept := FireTimer(i, script(k), bt);
          log, k, again, last, at := log + [t.n], k + 1, dirty, p, i;
        }
        if !again {
          if kept {
            MinNextSnoc(timers, i);
            mintime := if timers[i].next < mintime then timers[i].next else mintime;
            i := i + 1;
          }
        }
      }
      if !again {
        assert timers[..i] == timers;
        FirstDueIs(timers, i, bt);
      }
    }

    /** `TimerPoolRun`: whatever the callbacks do, it ends with the pool and the firings of the reference, with
        nothing due, and returns the least next time. */
    method Run(bt: nat, script: nat -> Script) returns (mintime: nat, ghost log: seq<nat>)
      requires ValidPool(State()) && forall j :: After(script(j), bt)
      modifies this
      ensures (State(), log) == Drain(old(State()), bt, script, 0) && !dirty
      ensures mintime == if timers == [] then 0 else MinNext(timers)
    {
      hide Fire, ValidPool, Drain, Due, FirstDue, After, Progress;
      NoProgress(State(), [], 0, bt, script);
      log := [];
      if timers == [] {
        DrainDone(State(), bt, script, 0);
        dirty := false;
        return 0, log;
      }
      var k, again := 0, true;
      mintime := MaxTime;
      while again
        invariant ValidPool(State()) && Progress(old(State()), [], 0, State(), log, k, bt, script)
        invariant !again ==> !dirty && FirstDue(timers, bt) == |timers| && mintime == MinNext(timers)
        decreases Due(State(), bt), again
      {
        ghost var p, l, j := State(), log, k;
        ghost var last, at;
        again, mintime, k, log, last, at := Sweep(bt, script, k, log);
        ProgressTrans(old(State()), [], 0, p, l, j, State(), log, k, bt, script);
      }
      ProgressDone(old(State()), State(), log, k, bt, script);
      if timers == [] {
        mintime := 0;
      }
    }
  }

  /** The firings from `log` to `log'` lead from `p` to `q` in the reference. */
  ghost predicate Progress(p: Pool, log: seq<nat>, k: nat, q: Pool, log': seq<nat>, k': nat, bt: nat, script: nat -> Script)
    requires ValidPool(p) && ValidPool(q) && forall j :: After(script(j), bt)
  {
    var (d, d') := (Drain(p, bt, script, k), Drain(q, bt, script, k'));
    d.0 == d'.0 && log + d.1 == log' + d'.1
  }

  lemma NoProgress(p: Pool, log: seq<nat>, k: nat, bt: nat, script: nat -> Script)
    requires ValidPool(p) && forall j :: After(script(j), bt)
    ensures Progress(p, log, k, p, log, k, bt, script) && (p.timers == [] ==> FirstDue(p.timers, bt) == |p.timers|)
  {
  }

  lemma ProgressTrans(p: Pool, l: seq<nat>, k: nat, p': Pool, l': seq<nat>, k': nat, q: Pool, m: seq<nat>, j: nat,
                      bt: nat, script: nat -> Script)
    requires ValidPool(p) && ValidPool(p') && ValidPool(q) && forall i :: After(script(i), bt)
    requires Progress(p, l, k, p', l', k', bt, script) && Progress(p', l', k', q, m, j, bt, script)
    ensures Progress(p, l, k, q, m, j, bt, script)
  {
    hide Drain;
  }

  lemma ProgressStep(p: Pool, l: seq<nat>, k: nat, q: Pool, m: seq<nat>, j: nat, bt: nat, script: nat -> Script, i: nat)
    requires ValidPool(p) && ValidPool(q) && (forall x :: After(script(x), bt)) && Progress(p, l, k, q, m, j, bt, script)
    requires i < |q.timers| && FirstDue(q.timers, bt) == i
    ensures ValidPool(Fire(q, i, script(j), bt))
    ensures Progress(p, l, k, Fire(q, i, script(j), bt), m + [q.timers[i].n], j + 1, bt, script)
  {
    hide Fire;
    FireShrinks(q, i, script(j), bt);
    var r := Drain(Fire(q, i, script(j), bt), bt, script, j + 1).1;
    assert m + ([q.timers[i].n] + r) == (m + [q.timers[i].n]) + r;
  }

  lemma ProgressDone(p: Pool, q: Pool, log: seq<nat>, k: nat, bt: nat, script: nat -> Script)
    requires ValidPool(p) && ValidPool(q) && (forall i :: After(script(i), bt)) && Progress(p, [], 0, q, log, k, bt, script)
    requires FirstDue(q.timers, bt) == |q.timers|
    ensures Drain(p, bt, script, 0) == (q, log)
  {
    hide Drain;
    DrainDone(q, bt, script, k);
    assert [] + Drain(p, bt, script, 0).1 == Drain(p, bt, script, 0).1 && log + [] == log;
  }

  /** What comes before a timer that fires stays, and the timer itself is not due again. */
  lemma LeftBefore(p: Pool, i: nat, bt: nat)
    requires ValidPool(p) && i < |p.timers|
    ensures var (w, u) := (Without(p.timers, i), p.timers[i := Again(p.timers[i], bt)]);
            |w| == |p.timers| - 1 && w[..i] == u[..i] == p.timers[..i] && Again(p.timers[i], bt).next > bt &&
            forall j :: 0 <= j < i ==> w[j] == p.timers[j]
  {
    assert p.timers[i].period >= MinPeriod;
  }

  lemma MinNextSnoc(ts: seq<Timer>, i: nat)
    ensures MinNext(ts[..0]) == MaxTime
    ensures i < |ts| ==> MinNext(ts[..i + 1]) == if ts[i].next < MinNext(ts[..i]) then ts[i].next else MinNext(ts[..i])
  {
    if i < |ts| {
      assert ts[..i + 1][..i] == ts[..i];
    }
  }

  /** A callback that has changed nothing leaves its timer in its place. */
  lemma UnchangedPool(p: Pool, i: nat, bt: nat)
    requires ValidPool(p) && i < |p.timers|
    ensures var (t, u) := (p.timers[i], Counted(p, i).timers);
            |u| == |p.timers| && Index(u, t.name) == i && u[i].n == t.n && Without(u, i) == Without(p.timers, i) &&
            u[i := u[i].(next := bt + u[i].period)] == p.timers[i := Again(t, bt)]
  {
    CountedValid(p, i);
    IndexUnique(Counted(p, i), i);
  }

  /** What is left to be done after the callback. */
  lemma FireIs(p: Pool, i: nat, s: Script, bt: nat, q: Pool)
    requires i < |p.timers| && q == ActAll(Counted(p, i), s.actions)
    ensures var (t, at, r) := (p.timers[i], Index(q.timers, p.timers[i].name), Fire(p, i, s, bt));
            if at == |q.timers| || q.timers[at].n != t.n then r == q
            else r == q.(timers := if !s.ok || t.oneshot then Without(q.timers, at)
                                   else q.timers[at := q.timers[at].(next := bt + q.timers[at].period)])
  {
    hide ActAll, Counted, Without;
  }

  lemma IndexUnique(p: Pool, i: nat)
    requires ValidPool(p) && i < |p.timers|
    ensures Index(p.timers, p.timers[i].name) == i
  {
  }

  lemma FirstDueIs(ts: seq<Timer>, i: nat, bt: nat)
    requires i <= |ts| && (forall j :: 0 <= j < i ==> ts[j].next > bt) && (i < |ts| ==> ts[i].next <= bt)
    ensures FirstDue(ts, bt) == i
  {
  }

  lemma DrainDone(p: Pool, bt: nat, script: nat -> Script, k: nat)
    requires ValidPool(p) && (forall j :: After(script(j), bt)) && FirstDue(p.timers, bt) == |p.timers|
    ensures Drain(p, bt, script, k) == (p, [])
  {
  }
}
