/** Noise alerts (P_NoiseAlert and P_RecursiveSound in p_enemy.c): a depth-first flood over the
    sector graph in which sound may cross one sound-blocking line and no more. */
module SoundFlood {

  const ML_TWOSIDED: bv16 := 4
  const ML_SOUNDBLOCK: bv16 := 64

  /** A map line. `openrange` is the gap P_LineOpening finds between its two sectors; `back` is
      null when there is no second side. */
  datatype Line = Line(flags: bv16, openrange: int, front: Sector, back: Sector?) {

    /** Sound passes through two-sided lines that are not closed doors. */
    predicate Open() {
      flags & ML_TWOSIDED != 0 && openrange > 0
    }

    predicate Muffles() {
      flags & ML_SOUNDBLOCK != 0
    }

    function Cost(): nat {
      if Muffles() then 1 else 0
    }

    /** The sector on the far side, seen from `sec`. */
    function Other(sec: Sector): Sector? {
      if front == sec then back else front
    }
  }

  class Mobj {
    var sector: Sector

    constructor (s: Sector)
      ensures sector == s
    {
      sector := s;
    }
  }

  class Sector {
    var lines: seq<Line>
    var validcount: int
    var soundtraversed: int
    var soundtarget: Mobj?
    ghost var floods: nat  // how often this sector was expanded

    constructor ()
      ensures lines == [] && validcount == soundtraversed == floods == 0 && soundtarget == null
    {
      lines, validcount, soundtraversed, soundtarget, floods := [], 0, 0, null, 0;
    }
  }

  // ---- The sector graph as a value ----

  type Graph = map<Sector, seq<Line>>

  ghost predicate Depicts(g: Graph)
    reads g.Keys`lines
  {
    forall s <- g :: s.lines == g[s]
  }

  ghost predicate Leads(g: Graph, s: Sector, i: nat)
    requires s in g && i < |g[s]|
  {
    g[s][i].Other(s) in g
  }

  /** Every open line of a sector in the graph leads to a sector in the graph. */
  ghost predicate Closed(g: Graph) {
    forall s <- g, i | 0 <= i < |g[s]| && g[s][i].Open() :: Leads(g, s, i)
  }

  /** Follows the numbered lines one after the other; null if one of them does not let sound
      through or does not exist. */
  ghost function Walk(g: Graph, s: Sector, path: seq<nat>): (t: Sector?)
    requires Closed(g) && s in g
    ensures t != null ==> t in g
    decreases |path|
  {
    if path == [] then s
    else if path[0] < |g[s]| && g[s][path[0]].Open() then
      assert Leads(g, s, path[0]);
      Walk(g, g[s][path[0]].Other(s), path[1..])
    else null
  }

  /** How many sound-blocking lines the walk crosses. */
  ghost function Blocks(g: Graph, s: Sector, path: seq<nat>): nat
    requires Closed(g) && s in g && Walk(g, s, path) != null
    decreases |path|
  {
    if path == [] then 0
    else
      assert Leads(g, s, path[0]);
      g[s][path[0]].Cost() + Blocks(g, g[s][path[0]].Other(s), path[1..])
  }

  /** Sound made in `s` reaches `t` over some walk with at most k sound-blocking lines. */
  ghost predicate Hears(g: Graph, s: Sector, t: Sector, k: int)
    requires Closed(g) && s in g
  {
    exists path: seq<nat> :: Walk(g, s, path) == t && Blocks(g, s, path) <= k
  }

  /** 1 or 2 for a sector that hears the noise directly or across one sound-blocking line,
      3 for one that does not hear it. */
  ghost function Level(g: Graph, s: Sector, t: Sector): nat
    requires Closed(g) && s in g
  {
    if Hears(g, s, t, 0) then 1 else if Hears(g, s, t, 1) then 2 else 3
  }

  /** A level below 3 is one more than the least number of sound-blocking lines on any walk;
      level 3 means that every walk crosses at least two. */
  lemma LevelIsLeast(g: Graph, s: Sector, t: Sector)
    requires Closed(g) && s in g
    ensures Level(g, s, t) < 3 ==>
      exists path: seq<nat> :: Walk(g, s, path) == t && Blocks(g, s, path) == Level(g, s, t) - 1
    ensures forall path: seq<nat> :: Walk(g, s, path) == t ==> Level(g, s, t) - 1 <= Blocks(g, s, path)
  {
    if Level(g, s, t) == 2 {
      var path: seq<nat> :| Walk(g, s, path) == t && Blocks(g, s, path) <= 1;
      assert Blocks(g, s, path) != 0;
    }
  }

  lemma {:induction false} WalkAppend(g: Graph, s: Sector, path: seq<nat>, i: nat)
    requires Closed(g) && s in g && Walk(g, s, path) != null
    requires i < |g[Walk(g, s, path)]| && g[Walk(g, s, path)][i].Open()
    ensures Walk(g, s, path + [i]) == g[Walk(g, s, path)][i].Other(Walk(g, s, path))
    ensures Walk(g, s, path + [i]) != null
    ensures Blocks(g, s, path + [i]) == Blocks(g, s, path) + g[Walk(g, s, path)][i].Cost()
    decreases |path|
  {
    if path == [] {
      assert Leads(g, s, i);
      assert path + [i] == [i];
      assert [i][1..] == [];
    } else {
      assert Leads(g, s, path[0]);
      assert (path + [i])[1..] == path[1..] + [i];
      WalkAppend(g, g[s][path[0]].Other(s), path[1..], i);
    }
  }

  lemma HearsNext(g: Graph, s: Sector, t: Sector, i: nat, k: int)
    requires Closed(g) && s in g && t in g && Hears(g, s, t, k)
    requires i < |g[t]| && g[t][i].Open()
    ensures g[t][i].Other(t) in g
    ensures Hears(g, s, g[t][i].Other(t), k + g[t][i].Cost())
  {
    var path: seq<nat> :| Walk(g, s, path) == t && Blocks(g, s, path) <= k;
    WalkAppend(g, s, path, i);
    assert Leads(g, t, i);
  }

  lemma HearsItself(g: Graph, s: Sector)
    requires Closed(g) && s in g
    ensures Hears(g, s, s, 0)
  {
    assert Walk(g, s, []) == s && Blocks(g, s, []) == 0;
  }

  // ---- What that means for the map ----

  /** Sound crosses a two-sided line (flag 4) with an opening, from either of its sectors into the
      other, at a cost of one if the line blocks sound (flag 64). */
  lemma NoiseCrosses(g: Graph, a: Sector, b: Sector, i: nat)
    requires Closed(g) && a in g && a != b && i < |g[a]|
    requires g[a][i].flags & 4 != 0 && g[a][i].openrange > 0
    requires (g[a][i].front == a && g[a][i].back == b) || (g[a][i].front == b && g[a][i].back == a)
    ensures b in g
    ensures var cost := if g[a][i].flags & 64 != 0 then 1 else 0;
      && Hears(g, a, b, cost)
      && forall s <- g :: Level(g, s, a) < 3 ==> Level(g, s, b) <= Level(g, s, a) + cost
  {
    assert Leads(g, a, i);
    HearsItself(g, a);
    HearsNext(g, a, a, i, 0);
    forall s | s in g && Level(g, s, a) < 3
      ensures Level(g, s, b) <= Level(g, s, a) + g[a][i].Cost()
    {
      HearsNext(g, s, a, i, Level(g, s, a) - 1);
    }
  }

  /** And that is the only way: what is heard elsewhere leaves over such a line. */
  lemma NoiseLeaves(g: Graph, s: Sector, t: Sector, k: int)
    returns (i: nat, u: Sector)
    requires Closed(g) && s in g && s != t && Hears(g, s, t, k)
    ensures u in g && i < |g[s]| && g[s][i].flags & 4 != 0 && g[s][i].openrange > 0
    ensures (g[s][i].front == s && g[s][i].back == u) || (g[s][i].front != s && g[s][i].front == u)
    ensures Hears(g, u, t, k - if g[s][i].flags & 64 != 0 then 1 else 0)
  {
    var path: seq<nat> :| Walk(g, s, path) == t && Blocks(g, s, path) <= k;
    i := path[0];
    assert Leads(g, s, i);
    u := g[s][i].Other(s);
    assert Walk(g, u, path[1..]) == t;
  }

  lemma EmitterHears(g: Graph, s: Sector, k: int)
    requires Closed(g) && s in g
    ensures Hears(g, s, s, k) <==> k >= 0
    ensures Level(g, s, s) == 1
  {
    HearsItself(g, s);
  }

  /** Every sector lists its own lines, and both sectors of a line list it. */
  ghost predicate Shared(g: Graph) {
    forall a <- g, line | line in g[a] ::
      && (line.front == a || line.back == a)
      && line.front in g && line in g[line.front]
      && (line.back != null ==> line.back in g && line in g[line.back])
  }

  lemma HearsMore(g: Graph, s: Sector, t: Sector, k: int, m: int)
    requires Closed(g) && s in g && Hears(g, s, t, k) && k <= m
    ensures Hears(g, s, t, m)
  {
  }

  lemma {:induction false} WayBack(g: Graph, s: Sector, path: seq<nat>)
    requires Closed(g) && Shared(g) && s in g && Walk(g, s, path) != null
    ensures Hears(g, Walk(g, s, path), s, Blocks(g, s, path))
    decreases |path|
  {
    if path == [] {
      HearsItself(g, s);
    } else {
      var i, t := path[0], Walk(g, s, path);
      assert Leads(g, s, i);
      var u := g[s][i].Other(s);
      WayBack(g, u, path[1..]);
      if u == s {
        HearsMore(g, t, s, Blocks(g, s, path[1..]), Blocks(g, s, path));
      } else {
        assert g[s][i] in g[s];
        var j :| 0 <= j < |g[u]| && g[u][j] == g[s][i];
        HearsNext(g, t, u, j, Blocks(g, u, path[1..]));
      }
    }
  }

  /** Then whoever hears a sector is heard there, across as many sound-blocking lines. */
  lemma HearingIsMutual(g: Graph, s: Sector, t: Sector, k: int)
    requires Closed(g) && Shared(g) && s in g && t in g
    ensures Hears(g, s, t, k) <==> Hears(g, t, s, k)
  {
    if Hears(g, s, t, k) {
      var path: seq<nat> :| Walk(g, s, path) == t && Blocks(g, s, path) <= k;
      WayBack(g, s, path);
      HearsMore(g, t, s, Blocks(g, s, path), k);
    }
    if Hears(g, t, s, k) {
      var path: seq<nat> :| Walk(g, t, path) == s && Blocks(g, t, path) <= k;
      WayBack(g, t, path);
      HearsMore(g, s, t, Blocks(g, t, path), k);
    }
  }

  /** Two sectors that share their one line. */
  lemma TwoRoomLevels(g: Graph, a: Sector, b: Sector, line: Line)
    requires a != b && g == map[a := [line], b := [line]] && line.front == a && line.back == b
    ensures Closed(g) && Shared(g) && Level(g, a, a) == 1
    ensures line.flags & 4 != 0 && line.openrange > 0 ==> Level(g, a, b) == if line.flags & 64 != 0 then 2 else 1
    ensures !(line.flags & 4 != 0 && line.openrange > 0) ==> Level(g, a, b) == 3
  {
    assert g[a][0] == line && g[b][0] == line;
    assert forall s <- g, i | 0 <= i < |g[s]| :: Leads(g, s, i);
    EmitterHears(g, a, 0);
    if line.flags & 4 != 0 && line.openrange > 0 {
      NoiseCrosses(g, a, b, 0);
    }
    forall k | Hears(g, a, b, k)
      ensures line.flags & 4 != 0 && line.openrange > 0 && k >= if line.flags & 64 != 0 then 1 else 0
    {
      var i, u := NoiseLeaves(g, a, b, k);
      EmitterHears(g, b, k - if line.flags & 64 != 0 then 1 else 0);
    }
  }

  // ---- Markings ----

  /** What a sector carries: the label of the current flood (1, 2, or 3 for none) and the fields. */
  datatype Mark = Mark(reach: int, validcount: int, soundtraversed: int, soundtarget: Mobj?, floods: nat)

  type Marks = map<Sector, Mark>

  /** Along the first n lines of `s`, labels grow by no more than the line's cost. */
  ghost predicate Relaxed(g: Graph, m: Marks, s: Sector, n: int)
    requires Closed(g) && m.Keys == g.Keys && s in g
  {
    forall i | 0 <= i < n && i < |g[s]| && g[s][i].Open() ::
      Leads(g, s, i) && m[g[s][i].Other(s)].reach <= m[s].reach + g[s][i].Cost()
  }

  /** What holds whenever the flood enters or leaves a sector; `active` are the sectors whose
      lines are still being worked through. */
  ghost predicate Flooding(g: Graph, m: Marks, source: Sector, active: set<Sector>)
    requires Closed(g) && source in g
  {
    && m.Keys == g.Keys
    && (forall s <- g :: 1 <= m[s].reach <= 3)
    && (forall s <- g :: m[s].reach < 3 ==> Hears(g, source, s, m[s].reach - 1))
    && (forall s <- g :: s in active || Relaxed(g, m, s, |g[s]|))
  }

  ghost predicate Improved(a: Mark, b: Mark, best: int, target: Mobj?) {
    best <= b.reach < a.reach && b.soundtarget == target && b.floods + b.reach <= a.floods + a.reach
  }

  /** A sector is either left alone, or gets a better label, but nothing below `best`, along with
      the target; each expansion is paid for by the better label. */
  ghost predicate Advances(m: Marks, m': Marks, best: int, target: Mobj?) {
    m.Keys == m'.Keys && forall s <- m :: m'[s] == m[s] || Improved(m[s], m'[s], best, target)
  }

  ghost function Above(m: Marks, k: int): set<Sector> {
    set s | s in m && m[s].reach > k
  }

  /** What is left to do: 2 for each unheard sector, 1 for each muffled one. */
  ghost function Remaining(m: Marks): nat {
    |Above(m, 1)| + |Above(m, 2)|
  }

  lemma SubsetsSize<T>(a: set<T>, b: set<T>, c: set<T>, d: set<T>)
    requires a <= b && c <= d
    ensures |a| + |c| <= |b| + |d|
    ensures a != b || c != d ==> |a| + |c| < |b| + |d|
  {
    assert b == a + (b - a) && d == c + (d - c);
  }

  lemma AdvancesRemaining(m: Marks, m': Marks, best: int, target: Mobj?)
    requires Advances(m, m', best, target)
    ensures Remaining(m') <= Remaining(m)
  {
    SubsetsSize(Above(m', 1), Above(m, 1), Above(m', 2), Above(m, 2));
  }

  lemma AdvancesItself(m: Marks, best: int, target: Mobj?)
    ensures Advances(m, m, best, target)
  {
  }

  lemma AdvancesTransitive(m0: Marks, m1: Marks, m2: Marks, best: int, target: Mobj?)
    requires Advances(m0, m1, best, target) && Advances(m1, m2, best, target)
    ensures Advances(m0, m2, best, target)
    ensures Remaining(m2) <= Remaining(m1) <= Remaining(m0)
  {
    AdvancesRemaining(m0, m1, best, target);
    AdvancesRemaining(m1, m2, best, target);
  }

  lemma Unstamped(g: Graph, m: Marks, source: Sector)
    requires Closed(g) && source in g && m.Keys == g.Keys && forall s <- g :: m[s].reach == 3
    ensures Flooding(g, m, source, {}) && Hears(g, source, source, 0)
  {
    HearsItself(g, source);
    forall s | s in g
      ensures Relaxed(g, m, s, |g[s]|)
    {
      forall i | 0 <= i < |g[s]| && g[s][i].Open()
        ensures Leads(g, s, i) && m[g[s][i].Other(s)].reach <= m[s].reach + g[s][i].Cost()
      {
        assert Leads(g, s, i);
      }
    }
  }

  lemma EnterRemaining(m: Marks, m': Marks, sec: Sector, best: int)
    requires sec in m && sec in m' && m' == m[sec := m'[sec]]
    requires 1 <= best <= 2 && m'[sec].reach == best < m[sec].reach
    ensures Remaining(m') < Remaining(m)
  {
    assert sec in Above(m, best) && sec !in Above(m', best);
    SubsetsSize(Above(m', 1), Above(m, 1), Above(m', 2), Above(m, 2));
  }

  /** Marking a sector with a better label costs work that is then never done again. */
  lemma Enter(g: Graph, m: Marks, m': Marks, source: Sector, active: set<Sector>, sec: Sector,
              best: int, target: Mobj?)
    requires Closed(g) && source in g && sec in g && Flooding(g, m, source, active)
    requires 1 <= best <= 2 && Hears(g, source, sec, best - 1)
    requires sec in m' && m' == m[sec := m'[sec]]
    requires m'[sec].reach == best && Improved(m[sec], m'[sec], best, target)
    ensures Flooding(g, m', source, active + {sec})
    ensures Relaxed(g, m', sec, 0)
    ensures Advances(m, m', best, target)
    ensures Remaining(m') < Remaining(m)
  {
    hide Remaining, Hears;
    EnterRemaining(m, m', sec, best);
    forall s | s in g && s !in active + {sec}
      ensures Relaxed(g, m', s, |g[s]|)
    {
      assert Relaxed(g, m, s, |g[s]|);
    }
  }

  /** One more line of `sec` is satisfied after its neighbour was flooded, and the earlier ones
      still are. */
  lemma RelaxedAfter(g: Graph, m: Marks, m': Marks, source: Sector, active: set<Sector>,
                     sec: Sector, n: int, best: int, target: Mobj?)
    requires Closed(g) && sec in g && source in g && m.Keys == g.Keys && Advances(m, m', best, target)
    requires Flooding(g, m', source, active)
    requires Relaxed(g, m, sec, n) && m[sec].reach == best
    requires 0 <= n < |g[sec]|
    requires g[sec][n].Open() && best + g[sec][n].Cost() < 3 ==>
      Leads(g, sec, n) && m'[g[sec][n].Other(sec)].reach <= best + g[sec][n].Cost()
    ensures m'[sec].reach == best && Relaxed(g, m', sec, n + 1)
  {
    forall i | 0 <= i < n + 1 && i < |g[sec]| && g[sec][i].Open()
      ensures Leads(g, sec, i) && m'[g[sec][i].Other(sec)].reach <= m'[sec].reach + g[sec][i].Cost()
    {
      assert Leads(g, sec, i);
    }
  }

  /** With all its lines satisfied, a sector is no longer active. */
  lemma Leave(g: Graph, m: Marks, source: Sector, active: set<Sector>, sec: Sector)
    requires Closed(g) && source in g && sec in g && Flooding(g, m, source, active + {sec})
    requires Relaxed(g, m, sec, |g[sec]|)
    ensures Flooding(g, m, source, active)
  {
  }

  /** Once every sector is relaxed, a walk raises the label by at most the lines it crosses. */
  lemma {:induction false} RelaxedAlong(g: Graph, m: Marks, source: Sector, s: Sector, path: seq<nat>)
    requires Closed(g) && s in g && source in g && Flooding(g, m, source, {})
    requires Walk(g, s, path) != null
    ensures m[Walk(g, s, path)].reach <= m[s].reach + Blocks(g, s, path)
    decreases |path|
  {
    if path == [] {
    } else {
      assert Relaxed(g, m, s, |g[s]|);
      assert Leads(g, s, path[0]);
      RelaxedAlong(g, m, source, g[s][path[0]].Other(s), path[1..]);
    }
  }

  /** After the flood every label is the sector's level. */
  lemma FloodedIsLevel(g: Graph, m: Marks, source: Sector, t: Sector)
    requires Closed(g) && source in g && t in g
    requires Flooding(g, m, source, {}) && m[source].reach <= 1
    ensures m[t].reach == Level(g, source, t)
  {
    forall path: seq<nat> | Walk(g, source, path) == t
      ensures m[t].reach <= 1 + Blocks(g, source, path)
    {
      RelaxedAlong(g, m, source, source, path);
    }
  }

  // ---- The flood ----

  class World {
    var validcount: int
    var soundtarget: Mobj?

    constructor ()
      ensures validcount == 1
    {
      validcount, soundtarget := 1, null;
    }

    /** No sector carries a stamp from the future, so the next flood starts with none stamped. */
    ghost predicate Valid(g: Graph)
      reads `validcount, g.Keys`validcount, g.Keys`lines
    {
      Closed(g) && Depicts(g) && forall s <- g :: s.validcount <= validcount
    }

    ghost function MarkOf(s: Sector): Mark
      reads `validcount, s`validcount, s`soundtraversed, s`soundtarget, s`floods
    {
      Mark(if s.validcount == validcount then s.soundtraversed else 3,
           s.validcount, s.soundtraversed, s.soundtarget, s.floods)
    }

    ghost function Marking(g: Graph): Marks
      reads `validcount, g.Keys`validcount, g.Keys`soundtraversed, g.Keys`soundtarget, g.Keys`floods
    {
      map s | s in g :: MarkOf(s)
    }

    method Stamp(sec: Sector, soundblocks: int, ghost g: Graph)
      requires sec in g && MarkOf(sec).reach > soundblocks + 1
      modifies sec`validcount, sec`soundtraversed, sec`soundtarget, sec`floods
      ensures Marking(g) == old(Marking(g))[sec := Marking(g)[sec]]
      ensures Marking(g)[sec].reach == soundblocks + 1
      ensures Improved(old(Marking(g))[sec], Marking(g)[sec], soundblocks + 1, soundtarget)
    {
      sec.validcount := validcount;
      sec.soundtraversed := soundblocks + 1;
      sec.soundtarget := soundtarget;
      sec.floods := sec.floods + 1;
    }

    method RecursiveSound(sec: Sector, soundblocks: int, ghost g: Graph, ghost source: Sector,
                          ghost active: set<Sector>)
      requires soundblocks == 0 || soundblocks == 1
      requires Closed(g) && Depicts(g) && sec in g && source in g
      requires Flooding(g, Marking(g), source, active)
      requires Hears(g, source, sec, soundblocks)
      modifies g.Keys`validcount, g.Keys`soundtraversed, g.Keys`soundtarget, g.Keys`floods
      ensures Flooding(g, Marking(g), source, active)
      ensures Marking(g)[sec].reach <= soundblocks + 1
      ensures Advances(old(Marking(g)), Marking(g), soundblocks + 1, soundtarget)
      decreases Remaining(Marking(g)), 0
    {
      hide Flooding, Relaxed, Remaining, Hears, Walk, Blocks, Level, Above, Advances, Improved, Closed, Leads;
      ghost var m := Marking(g);
      AdvancesItself(m, soundblocks + 1, soundtarget);
      if sec.validcount == validcount && sec.soundtraversed <= soundblocks + 1 {
        return;
      }
      Stamp(sec, soundblocks, g);
      Enter(g, m, Marking(g), source, active, sec, soundblocks + 1, soundtarget);

      var i := 0;
      while i < |sec.lines|
        invariant 0 <= i <= |sec.lines|
        invariant Flooding(g, Marking(g), source, active + {sec})
        invariant Marking(g)[sec].reach == soundblocks + 1
        invariant Relaxed(g, Marking(g), sec, i)
        invariant Advances(m, Marking(g), soundblocks + 1, soundtarget)
        invariant Remaining(Marking(g)) < Remaining(m)
      {
        ghost var before := Marking(g);
        CrossLine(sec, i, soundblocks, g, source, active + {sec});
        AdvancesTransitive(m, before, Marking(g), soundblocks + 1, soundtarget);
        i := i + 1;
      }
      Leave(g, Marking(g), source, active, sec);
    }

    /** The loop body of RecursiveSound: carries the sound over line i, if it lets any through. */
    method CrossLine(sec: Sector, i: nat, soundblocks: int, ghost g: Graph, ghost source: Sector,
                     ghost active: set<Sector>)
      requires soundblocks == 0 || soundblocks == 1
      requires Closed(g) && Depicts(g) && sec in g && source in g
      requires Flooding(g, Marking(g), source, active)
      requires Hears(g, source, sec, soundblocks)
      requires i < |sec.lines| && Marking(g)[sec].reach == soundblocks + 1
      requires Relaxed(g, Marking(g), sec, i)
      modifies g.Keys`validcount, g.Keys`soundtraversed, g.Keys`soundtarget, g.Keys`floods
      ensures Flooding(g, Marking(g), source, active)
      ensures Marking(g)[sec].reach == soundblocks + 1 && Relaxed(g, Marking(g), sec, i + 1)
      ensures Advances(old(Marking(g)), Marking(g), soundblocks + 1, soundtarget)
      decreases Remaining(Marking(g)), 1
    {
      hide Flooding, Relaxed, Remaining, Hears, Walk, Blocks, Level, Above;
      ghost var m := Marking(g);
      var check := sec.lines[i];
      if check.Open() {
        HearsNext(g, source, sec, i, soundblocks);
        var other := check.Other(sec);
        if check.Muffles() {
          if soundblocks == 0 {
            RecursiveSound(other, 1, g, source, active);
          }
        } else {
          RecursiveSound(other, soundblocks, g, source, active);
        }
      }
      RelaxedAfter(g, m, Marking(g), source, active, sec, i, soundblocks + 1, soundtarget);
    }

    method NoiseAlert(target: Mobj, emitter: Mobj, ghost g: Graph)
      requires Valid(g) && emitter.sector in g
      modifies this, g.Keys`validcount, g.Keys`soundtraversed, g.Keys`soundtarget, g.Keys`floods
      ensures Valid(g)
      ensures validcount == old(validcount) + 1 && soundtarget == target
      ensures forall t <- g :: var k := Level(g, emitter.sector, t);
        if k < 3 then
          t.validcount == validcount && t.soundtraversed == k && t.soundtarget == target
        else
          t.validcount == old(t.validcount) && t.soundtraversed == old(t.soundtraversed)
          && t.soundtarget == old(t.soundtarget)
      ensures forall t <- g :: t.floods <= old(t.floods) + 3 - Level(g, emitter.sector, t)
    {
      hide Flooding, Relaxed, Hears, Walk, Blocks, Level, Remaining, Closed, Depicts;
      soundtarget := target;
      validcount := validcount + 1;
      ghost var m := Marking(g);
      forall t | t in g
        ensures m[t] == Mark(3, old(t.validcount), old(t.soundtraversed), old(t.soundtarget), old(t.floods))
      {
        assert t.validcount < validcount;
      }
      Unstamped(g, m, emitter.sector);
      RecursiveSound(emitter.sector, 0, g, emitter.sector, {});
      forall t | t in g
        ensures MarkOf(t).reach == Level(g, emitter.sector, t)
        ensures MarkOf(t) == m[t] || Improved(m[t], MarkOf(t), 1, target)
      {
        FloodedIsLevel(g, Marking(g), emitter.sector, t);
        assert Marking(g)[t] == MarkOf(t);
      }
    }
  }

  /** Two rooms with a line between them and a noise in the first: the second hears it exactly when
      the line is two-sided and open, muffled if the line blocks sound, and the first always does. */
  method TwoRooms(flags: bv16, openrange: int) returns (world: World, a: Sector, b: Sector, target: Mobj)
    ensures fresh(world) && fresh(a) && fresh(b)
    ensures a.soundtarget == target && a.soundtraversed == 1 && a.validcount == world.validcount
    ensures flags & 4 != 0 && openrange > 0 ==>
      && b.soundtarget == target && b.validcount == world.validcount
      && b.soundtraversed == if flags & 64 != 0 then 2 else 1
    ensures !(flags & 4 != 0 && openrange > 0) ==> b.soundtarget == null && b.validcount < world.validcount
  {
    a := new Sector();
    b := new Sector();
    var line := Line(flags, openrange, a, b);
    a.lines, b.lines := [line], [line];
    world := new World();
    target := new Mobj(b);
    var emitter := new Mobj(a);
    ghost var g: Graph := map[a := [line], b := [line]];
    hide Closed, Shared, Level;
    TwoRoomLevels(g, a, b, line);
    assert a in g && b in g;
    world.NoiseAlert(target, emitter, g);
  }
}
