/** Low-resolution turning (the end of G_BuildTiccmd in g_game.c): turns are rounded to what the
    short demo format can hold, and the rounding error is carried to the next tic. */
module LowresTurn {
  import opened TicCommand
  import opened DemoFormat

  /** The emitted turn is a multiple of 256, the carry lies within half of that, and together
      they make up the request and the old carry, give or take one full 16-bit circle. */
  predicate Rounds(requested: Short, carry: Short, emitted: Short, carry': Short) {
    var drift := emitted + carry' - requested - carry;
    && emitted % 0x100 == 0
    && -0x80 <= carry' < 0x80
    && (drift == 0 || drift == 0x1_0000 || drift == -0x1_0000)
  }

  /** That leaves one choice only. */
  lemma RoundsOnce(requested: Short, carry: Short, e1: Short, c1: Short, e2: Short, c2: Short)
    requires Rounds(requested, carry, e1, c1) && Rounds(requested, carry, e2, c2)
    ensures e1 == e2 && c1 == c2
  {
    var a, b := e1 / 0x100, e2 / 0x100;
    assert e1 == 0x100 * a && e2 == 0x100 * b;
  }

  class TurnBuilder {
    var carry: Short

    constructor ()
      ensures carry == 0
    {
      carry := 0;
    }

    method Round(angleturn: Short) returns (rounded: Short)
      modifies this
      ensures Rounds(angleturn, old(carry), rounded, carry)
    {
      var desired_angleturn: int := ToShort(angleturn + carry);
      ghost var drift, r := desired_angleturn - angleturn - carry, (desired_angleturn + 128) / 0x100;
      assert drift == 0 || drift == 0x1_0000 || drift == -0x1_0000;
      assert -0x80 <= r <= 0x80 && r % 0x100 == if r < 0 then r + 0x100 else r;
      rounded := ToShort((desired_angleturn + 128) / 0x100 % 0x100 * 0x100);
      assert rounded == 0x100 * (if r == 128 then -128 else r);
      carry := ToShort(desired_angleturn - rounded);
      assert carry == desired_angleturn - 0x100 * r;
    }
  }

  // ---- Whole runs ----

  /** One tic after the other, starting from `carry`. */
  ghost predicate Run(requested: seq<Short>, carry: Short, emitted: seq<Short>, carry': Short)
    requires |requested| == |emitted|
    decreases |requested|
  {
    if requested == [] then carry' == carry
    else exists c: Short ::
      Rounds(requested[0], carry, emitted[0], c) && Run(requested[1..], c, emitted[1..], carry')
  }

  /** The end of G_BuildTiccmd, tic after tic. */
  method RoundAll(requested: seq<Short>, builder: TurnBuilder) returns (emitted: seq<Short>)
    modifies builder
    ensures |emitted| == |requested| && Run(requested, old(builder.carry), emitted, builder.carry)
    decreases |requested|
  {
    if requested == [] {
      return [];
    }
    var first := builder.Round(requested[0]);
    ghost var carry := builder.carry;
    var rest := RoundAll(requested[1..], builder);
    emitted := [first] + rest;
    assert emitted[1..] == rest && Run(requested[1..], carry, emitted[1..], builder.carry);
  }

  function Sum(turns: seq<Short>): int {
    if turns == [] then 0 else turns[0] + Sum(turns[1..])
  }

  lemma SumsModulo(a: int, b: int)
    requires a % 0x1_0000 == 0 && b % 0x1_0000 == 0
    ensures (a + b) % 0x1_0000 == 0
  {
  }

  /** No turn is lost: what was emitted plus the carry equals what was requested, modulo a full
      circle, however the 16-bit sums wrap on the way. */
  lemma {:induction false} RunConserves(requested: seq<Short>, carry: Short, emitted: seq<Short>, carry': Short)
    requires |requested| == |emitted| && Run(requested, carry, emitted, carry')
    ensures (Sum(emitted) + carry' - Sum(requested) - carry) % 0x1_0000 == 0
    ensures requested != [] ==> -0x80 <= carry' < 0x80
    ensures forall i | 0 <= i < |emitted| :: emitted[i] % 0x100 == 0
    decreases |requested|
  {
    if requested == [] {
    } else {
      var c: Short :| Rounds(requested[0], carry, emitted[0], c) && Run(requested[1..], c, emitted[1..], carry');
      RunConserves(requested[1..], c, emitted[1..], carry');
      SumsModulo(emitted[0] + c - requested[0] - carry, Sum(emitted[1..]) + carry' - Sum(requested[1..]) - c);
    }
  }

  /** Commands built with low-resolution turning play back from a short-format recording exactly
      as they were built. */
  lemma RoundedRunIsLossless(cmds: seq<Ticcmd>, requested: seq<Short>, carry: Short, carry': Short)
    requires |requested| == |cmds| && Markerless(cmds)
    requires Run(requested, carry, seq(|cmds|, i requires 0 <= i < |cmds| => cmds[i].angleturn), carry')
    ensures Play(Stream(cmds, false) + [DEMOMARKER], false, cmds) == Stopped(cmds)
  {
    hide Run, Sum, Play, Stream, Replayed;
    var emitted := seq(|cmds|, i requires 0 <= i < |cmds| => cmds[i].angleturn);
    RunConserves(requested, carry, emitted, carry');
    assert forall i | 0 <= i < |cmds| :: emitted[i] == cmds[i].angleturn;
    PlayStream(cmds, false, cmds, []);
    assert Replayed(cmds, false, cmds) == cmds;
    assert Stream(cmds, false) + [DEMOMARKER] + [] == Stream(cmds, false) + [DEMOMARKER];
  }
}
