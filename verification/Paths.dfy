/** Continuations: what some sequence of steps, of a given kind, leads to. */
module Paths {
  import opened Pcap
  import opened System
  import opened ExactlyOnce
  import opened Link
  import SP = Spool

  /** Some sequence of steps, each of which `ok` allows, leads from s to t. */
  ghost predicate Leads(s: System, t: System, ok: Move -> bool) {
    exists path: seq<System>, moves: seq<Move> :: Joins(path, moves, s, t, ok)
  }

  ghost predicate Joins(path: seq<System>, moves: seq<Move>, s: System, t: System, ok: Move -> bool) {
    && IsPath(path, moves) && path[0] == s && path[|moves|] == t
    && forall i :: 0 <= i < |moves| ==> ok(moves[i])
  }

  predicate AnyMove(mv: Move) { true }

  /** Steps that leave the spool as it is; the collector may crash. */
  predicate SpoolStill(mv: Move) { !mv.MSpool? && !mv.MWipe? }

  /** Steps of serve and of a collector that does not crash. */
  predicate Serving(mv: Move) { SpoolStill(mv) && !mv.MCrash? }

  /** Those, and steps by which the writer finishes what it is at: nothing is written, reaped or lost. */
  predicate Calm(mv: Move) {
    Serving(mv) || (mv.MSpool? && (mv.a in {SP.ASync, SP.APublish, SP.ASealSync, SP.AOpen} || mv.a.ACreate?))
  }

  lemma Stays(s: System, ok: Move -> bool)
    ensures Leads(s, s, ok)
  {
    hide System.Inv, Step;
    assert Joins([s], [], s, s, ok);
  }

  lemma Go(s: System, mv: Move, t: System, ok: Move -> bool)
    requires s.Inv() && Step(s, mv, t) && ok(mv)
    ensures t.Inv() && Leads(s, t, ok)
  {
    hide System.Inv, Step;
    StepKeeps(s, mv, t);
    assert Joins([s, t], [mv], s, t, ok);
  }

  lemma Then(s: System, t: System, u: System, ok: Move -> bool)
    requires Leads(s, t, ok) && Leads(t, u, ok)
    ensures Leads(s, u, ok)
  {
    hide System.Inv, Step;
    var p: seq<System>, a: seq<Move> :| Joins(p, a, s, t, ok);
    var q: seq<System>, b: seq<Move> :| Joins(q, b, t, u, ok);
    PathThen(p, a, q, b);
    assert Joins(p + q[1..], a + b, s, u, ok);
  }

  lemma PathThen(p: seq<System>, a: seq<Move>, q: seq<System>, b: seq<Move>)
    requires IsPath(p, a) && IsPath(q, b) && p[|a|] == q[0]
    ensures IsPath(p + q[1..], a + b)
    ensures (p + q[1..])[0] == p[0] && (p + q[1..])[|a + b|] == q[|b|]
  {
    hide System.Inv, Step;
    var path, moves := p + q[1..], a + b;
    forall i | 0 <= i < |moves| ensures path[i].Inv() && Step(path[i], moves[i], path[i + 1]) {
      if i < |a| {
        assert p[i].Inv() && Step(p[i], a[i], p[i + 1]);
      } else {
        var k := i - |a|;
        assert q[k].Inv() && Step(q[k], b[k], q[k + 1]);
        assert path[i] == q[k] && path[i + 1] == q[k + 1];
      }
    }
  }

  lemma Widen(s: System, t: System, ok: Move -> bool, more: Move -> bool)
    requires Leads(s, t, ok) && forall mv :: ok(mv) ==> more(mv)
    ensures Leads(s, t, more)
  {
    hide System.Inv, Step, IsPath;
    var p: seq<System>, a: seq<Move> :| Joins(p, a, s, t, ok);
    assert Joins(p, a, s, t, more);
  }

  /** A continuation of a run's last state is a longer run, by steps of the same kind. */
  lemma Prolongs(run: seq<System>, moves: seq<Move>, t: System, ok: Move -> bool)
    returns (run': seq<System>, moves': seq<Move>)
    requires IsRun(run, moves) && Leads(run[|moves|], t, ok)
    ensures IsRun(run', moves') && run <= run' && moves <= moves' && run'[|moves'|] == t
    ensures forall i :: |moves| <= i < |moves'| ==> ok(moves'[i])
  {
    hide System.Inv, Step, Init, Lossless;
    var q: seq<System>, b: seq<Move> :| Joins(q, b, run[|moves|], t, ok);
    PathThen(run, moves, q, b);
    run', moves' := run + q[1..], moves + b;
  }

  lemma Begins(l: Channel, gh: GlobalHeader)
    requires Lossless(l)
    ensures IsRun([Init(l, gh)], [])
  {
    hide Lossless, Init;
  }
}
