/** The lockstep tic loop (d_loop.c) with the consistency ring it shares with g_game.c. Commands
    are built ahead of the game into a ring of 128 slots, and run when everyone's have arrived. */
module TicLoop {
  import opened CArith
  import opened TicCommand

  const BACKUPTICS := 128
  const NET_MAXPLAYERS := 8
  const BT_SPECIAL := 128

  datatype RawTicSet = TicSet(cmds: seq<Ticcmd>, ingame: seq<bool>)

  /** The complete data of one tic. */
  type TicSet = s: RawTicSet | |s.cmds| == NET_MAXPLAYERS && |s.ingame| == NET_MAXPLAYERS
    witness TicSet(seq(NET_MAXPLAYERS, _ => EMPTY_TICCMD), seq(NET_MAXPLAYERS, _ => false))

  /** The ring slot of a tic. */
  function Slot(t: nat): (slot: nat)
    ensures slot < BACKUPTICS
  {
    t % BACKUPTICS
  }

  /** The first tics take the slots in order, and every 128 tics they come round again. */
  lemma SlotsComeRound(t: nat)
    ensures t < 128 ==> Slot(t) == t
    ensures Slot(t + 128) == Slot(t)
  {
  }

  lemma SlotsDiffer(t: nat, lo: nat)
    requires lo <= t < lo + BACKUPTICS
    ensures forall u | lo <= u < lo + BACKUPTICS && u != t :: Slot(u) != Slot(t)
  {
  }

  lemma TicsApart(t: nat, u: nat, ticdup: nat)
    ensures u * ticdup == t * ticdup + (u - t) * ticdup
  {
  }

  lemma NextTic(t: nat, ticdup: nat)
    ensures (t + 1) * ticdup == t * ticdup + ticdup
  {
  }

  lemma TicsAre(q: nat, i: nat, ticdup: nat)
    requires i < ticdup
    ensures (q * ticdup + i) / ticdup == q && (q * ticdup + i) % ticdup == i
  {
    var n := q * ticdup + i;
    assert n == (n / ticdup) * ticdup + n % ticdup;
    if n / ticdup < q {
      MulStep(n / ticdup, q, ticdup);
    } else if q < n / ticdup {
      MulStep(q, n / ticdup, ticdup);
    }
  }

  lemma TicOf(g: nat, tics: nat, ticdup: nat)
    requires g < tics * ticdup
    ensures ticdup > 0 && 0 <= g / ticdup < tics && 0 <= g % ticdup < ticdup
  {
    assert g == (g / ticdup) * ticdup + g % ticdup;
    if g / ticdup >= tics {
      MulMono(tics, g / ticdup, ticdup);
    }
  }

  // ---- Duplicated tics ----

  /** What TicdupSquash leaves of a command. */
  function Squash(cmd: Ticcmd): Ticcmd {
    cmd.(chatchar := 0, buttons := if cmd.buttons / BT_SPECIAL % 2 == 1 then 0 else cmd.buttons)
  }

  function SquashAll(s: TicSet): TicSet {
    TicSet(seq(NET_MAXPLAYERS, i requires 0 <= i < NET_MAXPLAYERS => Squash(s.cmds[i])), s.ingame)
  }

  /** The j-th run of a command: as built, then squashed. */
  function Dup(cmd: Ticcmd, j: nat): Ticcmd {
    if j == 0 then cmd else Squash(cmd)
  }

  lemma SquashTwice(cmd: Ticcmd)
    ensures Squash(Squash(cmd)) == Squash(cmd)
  {
  }

  /** Bit 128 of the buttons marks special ones. */
  method TicdupSquash(s: TicSet) returns (r: TicSet)
    ensures r == SquashAll(s)
    ensures r.ingame == s.ingame && forall i | 0 <= i < NET_MAXPLAYERS ::
      r.cmds[i] == s.cmds[i].(chatchar := 0, buttons := if s.cmds[i].buttons >= 128 then 0 else s.cmds[i].buttons)
  {
    r := s;
    for i := 0 to NET_MAXPLAYERS
      invariant r.ingame == s.ingame
      invariant forall j | 0 <= j < NET_MAXPLAYERS :: r.cmds[j] == if j < i then Squash(s.cmds[j]) else s.cmds[j]
    {
      var cmd := r.cmds[i].(chatchar := 0);
      if cmd.buttons / BT_SPECIAL % 2 == 1 {
        cmd := cmd.(buttons := 0);
      }
      r := r.(cmds := r.cmds[i := cmd]);
    }
  }

  method SinglePlayerClear(s: TicSet, localplayer: nat) returns (r: TicSet)
    ensures r.cmds == s.cmds
    ensures forall j | 0 <= j < NET_MAXPLAYERS :: r.ingame[j] == if j == localplayer then s.ingame[j] else false
  {
    r := s;
    for i := 0 to NET_MAXPLAYERS
      invariant r.cmds == s.cmds
      invariant forall j | 0 <= j < NET_MAXPLAYERS ::
        r.ingame[j] == if j < i && j != localplayer then false else s.ingame[j]
    {
      if i != localplayer {
        r := r.(ingame := r.ingame[i := false]);
      }
    }
  }

  // ---- The rings ----

  /** The slot of tic t holds the local player's command, and the consistency byte it was built
      with is still in the other ring. */
  ghost predicate LocalSlot(data: seq<TicSet>, check: seq<Byte>, built: seq<Ticcmd>, me: nat, t: nat)
    requires |data| == |check| == BACKUPTICS && me < NET_MAXPLAYERS && t < |built|
  {
    && data[Slot(t)].cmds[me] == built[t]
    && data[Slot(t)].ingame[me]
    && check[Slot(t)] == built[t].consistancy
  }

  ghost predicate LocalSlots(data: seq<TicSet>, check: seq<Byte>, built: seq<Ticcmd>, me: nat, lo: nat)
    requires |data| == |check| == BACKUPTICS && me < NET_MAXPLAYERS
  {
    forall t | lo <= t < |built| :: LocalSlot(data, check, built, me, t)
  }

  /** The slot of tic t holds what was received for the other players. */
  ghost predicate RemoteSlot(data: seq<TicSet>, received: seq<TicSet>, me: nat, t: nat)
    requires |data| == BACKUPTICS && t < |received|
  {
    forall p | 0 <= p < NET_MAXPLAYERS && p != me ::
      data[Slot(t)].cmds[p] == received[t].cmds[p] && data[Slot(t)].ingame[p] == received[t].ingame[p]
  }

  ghost predicate RemoteSlots(data: seq<TicSet>, received: seq<TicSet>, me: nat, lo: nat)
    requires |data| == BACKUPTICS
  {
    forall t | lo <= t < |received| :: RemoteSlot(data, received, me, t)
  }

  function WithLocal(s: TicSet, me: nat, cmd: Ticcmd): TicSet
    requires me < NET_MAXPLAYERS
  {
    TicSet(s.cmds[me := cmd], s.ingame[me := true])
  }

  /** `s` with everybody's part but the local player's taken from `other`. */
  function WithRemote(s: TicSet, me: nat, other: TicSet): TicSet
    requires me < NET_MAXPLAYERS
  {
    TicSet(other.cmds[me := s.cmds[me]], other.ingame[me := s.ingame[me]])
  }

  /** Building the next tic overwrites nothing that is still to run. */
  lemma BuildKeeps(data: seq<TicSet>, check: seq<Byte>, built: seq<Ticcmd>, received: seq<TicSet>,
                   me: nat, lo: nat, cmd: Ticcmd)
    requires |data| == |check| == BACKUPTICS && me < NET_MAXPLAYERS
    requires lo <= |built| < lo + BACKUPTICS && |received| <= lo + BACKUPTICS
    requires LocalSlots(data, check, built, me, lo) && RemoteSlots(data, received, me, lo)
    requires cmd.consistancy == check[Slot(|built|)]
    ensures var data' := data[Slot(|built|) := WithLocal(data[Slot(|built|)], me, cmd)];
      LocalSlots(data', check, built + [cmd], me, lo) && RemoteSlots(data', received, me, lo)
  {
    hide Slot;
    var slot := Slot(|built|);
    var data' := data[slot := WithLocal(data[slot], me, cmd)];
    SlotsDiffer(|built|, lo);
    forall t | lo <= t < |built| + 1
      ensures LocalSlot(data', check, built + [cmd], me, t)
    {
      if t < |built| {
        assert LocalSlot(data, check, built, me, t);
      }
    }
    forall t | lo <= t < |received|
      ensures RemoteSlot(data', received, me, t)
    {
      assert RemoteSlot(data, received, me, t);
    }
  }

  /** Neither does receiving one. */
  lemma ReceiveKeeps(data: seq<TicSet>, check: seq<Byte>, built: seq<Ticcmd>, received: seq<TicSet>,
                     me: nat, lo: nat, s: TicSet)
    requires |data| == |check| == BACKUPTICS && me < NET_MAXPLAYERS
    requires lo <= |received| < lo + BACKUPTICS
    requires LocalSlots(data, check, built, me, lo) && RemoteSlots(data, received, me, lo)
    ensures var data' := data[Slot(|received|) := WithRemote(data[Slot(|received|)], me, s)];
      LocalSlots(data', check, built, me, lo) && RemoteSlots(data', received + [s], me, lo)
  {
    hide Slot;
    var slot := Slot(|received|);
    var data' := data[slot := WithRemote(data[slot], me, s)];
    SlotsDiffer(|received|, lo);
    forall t | lo <= t < |built|
      ensures LocalSlot(data', check, built, me, t)
    {
      assert LocalSlot(data, check, built, me, t);
    }
    forall t | lo <= t < |received| + 1
      ensures RemoteSlot(data', received + [s], me, t)
    {
      if t < |received| {
        assert RemoteSlot(data, received, me, t);
      }
    }
  }

  /** Running the oldest tic may change its own slots and no others. */
  lemma RunKeeps(data: seq<TicSet>, check: seq<Byte>, built: seq<Ticcmd>, received: seq<TicSet>,
                 me: nat, lo: nat, s: TicSet, b: Byte)
    requires |data| == |check| == BACKUPTICS && me < NET_MAXPLAYERS
    requires |built| <= lo + BACKUPTICS && |received| <= lo + BACKUPTICS
    requires LocalSlots(data, check, built, me, lo) && RemoteSlots(data, received, me, lo)
    ensures LocalSlots(data[Slot(lo) := s], check[Slot(lo) := b], built, me, lo + 1)
    ensures RemoteSlots(data[Slot(lo) := s], received, me, lo + 1)
  {
    hide Slot;
    var data', check' := data[Slot(lo) := s], check[Slot(lo) := b];
    SlotsDiffer(lo, lo);
    forall t | lo < t < |built|
      ensures LocalSlot(data', check', built, me, t)
    {
      assert LocalSlot(data, check, built, me, t);
    }
    forall t | lo < t < |received|
      ensures RemoteSlot(data', received, me, t)
    {
      assert RemoteSlot(data, received, me, t);
    }
  }

  /** The first player in the game, from number i on; 8 when there is none. */
  function KeyPlayer(ingame: seq<bool>, i: nat): (k: nat)
    requires |ingame| == NET_MAXPLAYERS && i <= NET_MAXPLAYERS
    ensures i <= k <= NET_MAXPLAYERS && (k < NET_MAXPLAYERS ==> ingame[k]) && forall j | i <= j < k :: !ingame[j]
    decreases NET_MAXPLAYERS - i
  {
    if i == NET_MAXPLAYERS || ingame[i] then i else KeyPlayer(ingame, i + 1)
  }

  // ---- The clock ----

  /** Tics a reading of the clock earns, after paying off those still owed. */
  function Due(skip: int, last: int, now: int): int {
    Max(0, now - last - skip)
  }

  /** Tics still owed after that. */
  function Owed(skip: int, last: int, now: int): int {
    Max(0, skip - (now - last))
  }

  function GrantAll(readings: seq<int>, skip: int, last: int): int {
    if readings == [] then 0
    else Due(skip, last, readings[0]) + GrantAll(readings[1..], Owed(skip, last, readings[0]), readings[0])
  }

  function RunningMax(readings: seq<int>, most: int): int {
    if readings == [] then most else RunningMax(readings[1..], Max(most, readings[0]))
  }

  /** Over any readings, even of a clock that steps back, the tics granted are exactly how far the
      latest reading is past the point that was already paid for. */
  lemma {:induction false} GrantedIsRunningMax(readings: seq<int>, skip: int, last: int)
    requires skip >= 0
    ensures GrantAll(readings, skip, last) == RunningMax(readings, last + skip) - (last + skip)
    decreases |readings|
  {
    if readings == [] {
    } else {
      GrantedIsRunningMax(readings[1..], Owed(skip, last, readings[0]), readings[0]);
    }
  }

  /** How many tics to run, from the time that passed and the tics there are: all of them under the
      new sync, otherwise one more than passed while catching up; one at the least. */
  function Decided(newSync: bool, realtics: int, available: int): (counts: nat)
    ensures if available >= 1 then 1 <= counts <= available else counts == 1
  {
    Max(1, if newSync then available
           else if realtics + 1 < available then realtics + 1
           else if realtics < available then realtics
           else available)
  }

  lemma DecidedInFull(newSync: bool, elapsed: int, ready: int)
    ensures ready < 1 ==> Decided(newSync, elapsed, ready) == 1
    ensures ready >= 1 && (newSync || elapsed >= ready) ==> Decided(newSync, elapsed, ready) == ready
    ensures !newSync && 1 <= elapsed && ready - elapsed == 1 ==> Decided(newSync, elapsed, ready) == elapsed
    ensures !newSync && 1 <= elapsed && ready - elapsed > 1 ==> Decided(newSync, elapsed, ready) == elapsed + 1
    ensures !newSync && elapsed <= 0 && ready >= 1 ==> Decided(newSync, elapsed, ready) == 1
  {
  }

  // ---- The surroundings ----

  /** What the loop is called with and calls back into, for every read and every tic: the two
      clocks, the player's input, the network, and what the game makes of it. */
  datatype World = World(
    clock: nat -> int,              // the k-th reading of I_GetTime
    adjusted: nat -> int,           // the k-th reading of GetAdjustedTime
    input: nat -> Ticcmd,           // the local player's input for a tic
    arrivals: nat -> seq<TicSet>,   // the complete tics the k-th poll of the network has to offer
    place: nat -> Byte,             // the byte of the player's position after a game tic's check
    checked: nat -> bool)           // whether a game tic is a net game's, and no demo's

  ghost predicate LaterThan(clock: nat -> int, k: nat, v: int) {
    exists j: nat :: k <= j && clock(j) > v
  }

  /** The clock does not stand still forever. */
  ghost predicate Ticks(clock: nat -> int) {
    forall k: nat, v: int :: LaterThan(clock, k, v)
  }

  lemma SteadyClockTicks(clock: nat -> int)
    requires forall k: nat :: clock(k) >= k
    ensures Ticks(clock)
  {
    forall k: nat, v: int
      ensures LaterThan(clock, k, v)
    {
      var j: nat := Max(k, v + 1);
      assert clock(j) > v;
    }
  }

  // ---- The loop ----

  class Loop {
    const world: World
    const ticdup: nat
    const newSync: bool
    const connected: bool
    const localplayer: nat
    var singletics: bool

    const ticdata: array<TicSet>
    const consistancy: array<Byte>
    var maketic: nat
    var recvtic: nat
    var gametic: nat
    var skiptics: int
    var lasttime: int
    var oldentertics: int
    var playeringame: seq<bool>
    var frameon: nat
    var frameskip: seq<bool>
    var oldnettics: int
    var clockReads: nat
    var adjustedReads: nat
    var polls: nat

    ghost var tics: nat               // complete tics run, gametic / ticdup
    ghost var built: seq<Ticcmd>      // every command ever built for the local player
    ghost var received: seq<TicSet>   // every tic the network ever delivered
    ghost var ran: seq<seq<TicSet>>   // what RunTic was given, for each tic and each duplicate
    ghost var granted: int            // tics the clock has asked NetUpdate for
    ghost var latest: int             // the latest adjusted time ever read, in tics
    ghost var started: int            // the adjusted time at the start
    ghost var nudged: bool            // whether OldNetSync ever interfered

    /** How far building may run ahead of the game. */
    function Limit(): nat {
      if !newSync then 5 else if connected then 9 else 3
    }

    ghost predicate Config()
      reads `playeringame, `frameskip
    {
      && ticdup >= 1 && localplayer < NET_MAXPLAYERS && Ticks(world.clock)
      && ticdata.Length == BACKUPTICS && consistancy.Length == BACKUPTICS
      && ticdata as object != consistancy
      && |playeringame| == NET_MAXPLAYERS && |frameskip| == 4
    }

    ghost predicate Counts()
      reads `tics, `maketic, `recvtic, `built, `received, `ran
    {
      && tics <= maketic <= tics + Limit()
      && (if connected then tics <= recvtic <= tics + BACKUPTICS else recvtic == 0)
      && |built| == maketic && |received| == recvtic && |ran| == tics
    }

    ghost predicate Counters()
      reads `gametic, `tics, `maketic, `recvtic, `built, `received, `ran
    {
      gametic == tics * ticdup && Counts()
    }

    ghost predicate Rings()
      requires localplayer < NET_MAXPLAYERS && ticdata.Length == consistancy.Length == BACKUPTICS
      reads `built, `received, `tics, ticdata, consistancy
    {
      && LocalSlots(ticdata[..], consistancy[..], built, localplayer, tics)
      && RemoteSlots(ticdata[..], received, localplayer, tics)
    }

    /** The j-th run of tic t got the command that was built for it and, in a net game, the ones
        that were received; alone, nobody else was in the game. */
    ghost predicate RanOnce(t: nat, j: nat, s: TicSet)
      requires localplayer < NET_MAXPLAYERS && t < |built| && (connected ==> t < |received|)
      reads `built, `received
    {
      && s.cmds[localplayer] == Dup(built[t], j) && s.ingame[localplayer]
      && forall p | 0 <= p < NET_MAXPLAYERS && p != localplayer ::
           if connected then s.cmds[p] == Dup(received[t].cmds[p], j) && s.ingame[p] == received[t].ingame[p]
           else !s.ingame[p]
    }

    ghost predicate RanRight(t: nat, sets: seq<TicSet>)
      requires localplayer < NET_MAXPLAYERS && t < |built| && (connected ==> t < |received|)
      reads `built, `received
    {
      forall j | 0 <= j < |sets| :: RanOnce(t, j, sets[j])
    }

    ghost predicate History()
      requires localplayer < NET_MAXPLAYERS && Counts()
      reads `tics, `maketic, `recvtic, `built, `received, `ran
    {
      && (forall t | 0 <= t < maketic :: built[t] == world.input(t).(consistancy := built[t].consistancy))
      && (forall t | 0 <= t < tics :: |ran[t]| == ticdup && RanRight(t, ran[t]))
    }

    /** No tic is lost or invented: what was granted is how far the latest reading is from the
        first, as long as OldNetSync did not tamper with it. */
    ghost predicate Clock()
      reads `skiptics, `lasttime, `latest, `granted, `started, `nudged
    {
      skiptics >= 0 && (!nudged ==> lasttime + skiptics == latest && granted == latest - started)
    }

    ghost predicate Valid()
      reads this, ticdata, consistancy
    {
      Config() && Counters() && Rings() && History() && Clock()
    }

    constructor (world: World, ticdup: nat, newSync: bool, connected: bool, localplayer: nat)
      requires ticdup >= 1 && localplayer < NET_MAXPLAYERS && Ticks(world.clock)
      ensures Valid() && fresh(ticdata) && fresh(consistancy)
      ensures this.world == world && this.ticdup == ticdup && this.newSync == newSync
      ensures this.connected == connected && this.localplayer == localplayer
      ensures tics == maketic == recvtic == gametic == granted == skiptics == oldentertics == 0
      ensures !nudged && !singletics
      ensures lasttime == TruncDiv(world.adjusted(0), ticdup) && adjustedReads == 1 && clockReads == polls == 0
    {
      this.world, this.ticdup, this.newSync, this.connected, this.localplayer :=
        world, ticdup, newSync, connected, localplayer;
      singletics := false;
      ticdata := new TicSet[BACKUPTICS];
      consistancy := new Byte[BACKUPTICS];
      maketic, recvtic, gametic, skiptics, oldentertics := 0, 0, 0, 0, 0;
      lasttime := TruncDiv(world.adjusted(0), ticdup);
      playeringame, frameskip := seq(NET_MAXPLAYERS, _ => false), seq(4, _ => false);
      frameon, oldnettics, clockReads, adjustedReads, polls := 0, 0, 0, 1, 0;
      tics, built, received, ran, granted, nudged := 0, [], [], [], 0, false;
      latest, started := TruncDiv(world.adjusted(0), ticdup), TruncDiv(world.adjusted(0), ticdup);
    }

    /** Between passes the game stands at the start of a tic. */
    lemma Standing()
      requires Valid()
      ensures ticdup >= 1 && gametic == tics * ticdup && gametic / ticdup == tics && gametic % ticdup == 0
      ensures tics <= maketic <= tics + Limit() && (connected ==> tics <= recvtic)
    {
      hide Rings, History, Clock;
      TicsAre(tics, 0, ticdup);
    }

    /** The game turns this on to time a demo, one tic for each pass of the main loop. */
    method SetSingletics(on: bool)
      requires Valid()
      modifies `singletics
      ensures Valid() && singletics == on
    {
      singletics := on;
    }

    /** The callback G_BuildTiccmd, as far as the loop can tell: the player's input, with the
        consistency byte of the slot this tic will take. */
    method BuildTiccmd() returns (cmd: Ticcmd)
      requires Config()
      ensures cmd == world.input(maketic).(consistancy := consistancy[Slot(maketic)])
    {
      cmd := world.input(maketic);
      cmd := cmd.(consistancy := consistancy[maketic % BACKUPTICS]);
    }

    /** The history takes in one more command. */
    ghost method Record(cmd: Ticcmd)
      requires Config() && Counts() && History()
      requires cmd == world.input(maketic).(consistancy := cmd.consistancy)
      modifies `built
      ensures built == old(built) + [cmd]
      ensures forall t | 0 <= t <= maketic :: built[t] == world.input(t).(consistancy := built[t].consistancy)
      ensures forall t | 0 <= t < tics :: |ran[t]| == ticdup && RanRight(t, ran[t])
    {
      built := built + [cmd];
      forall t | 0 <= t < tics
        ensures |ran[t]| == ticdup && RanRight(t, ran[t])
      {
        assert old(RanRight(t, ran[t]));
        assert forall j | 0 <= j < |ran[t]| :: old(RanOnce(t, j, ran[t][j])) ==> RanOnce(t, j, ran[t][j]);
      }
    }

    /** The two assignments to the ring. */
    method StoreLocal(cmd: Ticcmd)
      requires Config()
      modifies ticdata
      ensures ticdata[..] ==
        old(ticdata[..])[Slot(maketic) := WithLocal(old(ticdata[..])[Slot(maketic)], localplayer, cmd)]
    {
      var slot := maketic % BACKUPTICS;
      ticdata[slot] := TicSet(ticdata[slot].cmds[localplayer := cmd], ticdata[slot].ingame);
      ticdata[slot] := TicSet(ticdata[slot].cmds, ticdata[slot].ingame[localplayer := true]);
    }

    method BuildNewTic() returns (more: bool)
      requires Valid()
      modifies `maketic, `built, ticdata
      ensures Valid()
      ensures more <==> old(maketic) - tics < Limit()
      ensures more <==> old(maketic) - tics < if !newSync then 5 else if connected then 9 else 3
      ensures more ==> maketic == old(maketic) + 1 && old(built) <= built
      ensures !more ==> maketic == old(maketic) && built == old(built) && ticdata[..] == old(ticdata[..])
    {
      hide LocalSlots, RemoteSlots, RanRight, Clock;
      TicsAre(tics, 0, ticdup);
      var gameticdiv := gametic / ticdup;
      if newSync {
        if !connected && maketic - gameticdiv > 2 {
          return false;
        }
        if maketic - gameticdiv > 8 {
          return false;
        }
      } else {
        if maketic - gameticdiv >= 5 {
          return false;
        }
      }
      var cmd := BuildTiccmd();
      BuildKeeps(ticdata[..], consistancy[..], built, received, localplayer, tics, cmd);
      StoreLocal(cmd);
      Record(cmd);
      maketic := maketic + 1;
      return true;
    }

    method StoreRemote(s: TicSet)
      requires Config()
      modifies ticdata
      ensures ticdata[..] ==
        old(ticdata[..])[Slot(recvtic) := WithRemote(old(ticdata[..])[Slot(recvtic)], localplayer, s)]
    {
      var slot := recvtic % BACKUPTICS;
      ghost var before := ticdata[..];
      for i := 0 to NET_MAXPLAYERS
        invariant forall k | 0 <= k < BACKUPTICS && k != slot :: ticdata[k] == before[k]
        invariant forall p | 0 <= p < NET_MAXPLAYERS ::
          ticdata[slot].cmds[p] == if p < i && p != localplayer then s.cmds[p] else before[slot].cmds[p]
        invariant forall p | 0 <= p < NET_MAXPLAYERS ::
          ticdata[slot].ingame[p] == if p < i && p != localplayer then s.ingame[p] else before[slot].ingame[p]
      {
        if i != localplayer {
          ticdata[slot] := TicSet(ticdata[slot].cmds[i := s.cmds[i]], ticdata[slot].ingame);
          ticdata[slot] := TicSet(ticdata[slot].cmds, ticdata[slot].ingame[i := s.ingame[i]]);
        }
      }
      assert ticdata[slot].cmds == WithRemote(before[slot], localplayer, s).cmds;
      assert ticdata[slot].ingame == WithRemote(before[slot], localplayer, s).ingame;
      assert ticdata[..] == before[slot := WithRemote(before[slot], localplayer, s)];
    }

    /** D_ReceiveTic. The network keeps no further ahead of the game than the ring is long. */
    method ReceiveTic(s: TicSet)
      requires Valid() && connected && recvtic < tics + BACKUPTICS
      modifies `recvtic, `received, ticdata
      ensures Valid()
      ensures recvtic == old(recvtic) + 1 && received == old(received) + [s]
    {
      hide LocalSlots, RemoteSlots;
      ReceiveKeeps(ticdata[..], consistancy[..], built, received, localplayer, tics, s);
      StoreRemote(s);
      received := received + [s];
      recvtic := recvtic + 1;
    }

    /** The network subsystem's turn: complete tics arrive, as far as there is room for them. */
    method PollNetwork()
      requires Valid() && connected
      modifies `recvtic, `received, `polls, ticdata
      ensures Valid() && polls == old(polls) + 1 && old(recvtic) <= recvtic
      ensures recvtic - old(recvtic) <= |world.arrivals(old(polls))|
      ensures received == old(received) + world.arrivals(old(polls))[..recvtic - old(recvtic)]
      ensures recvtic - old(recvtic) == |world.arrivals(old(polls))| || recvtic == tics + BACKUPTICS
    {
      hide Rings, Clock, History;
      var offered := world.arrivals(polls);
      polls := polls + 1;
      var i := 0;
      TicsAre(tics, 0, ticdup);
      while i < |offered| && recvtic - gametic / ticdup < BACKUPTICS
        invariant Valid() && i <= |offered| && recvtic == old(recvtic) + i
        invariant received == old(received) + offered[..i]
        modifies `recvtic, `received, ticdata
      {
        ReceiveTic(offered[i]);
        i := i + 1;
      }
    }

    /** The first half of NetUpdate: how many tics the clock has earned since it was last read.
        Tics owed, in skiptics, are paid off first; a clock that steps back adds to the debt. */
    method TicsDue() returns (newtics: nat)
      requires Config() && Clock()
      modifies `skiptics, `lasttime, `adjustedReads, `granted, `latest
      ensures Clock()
      ensures adjustedReads == old(adjustedReads) + 1
      ensures var now := TruncDiv(world.adjusted(old(adjustedReads)), ticdup);
        && newtics == Due(old(skiptics), old(lasttime), now)
        && skiptics == Owed(old(skiptics), old(lasttime), now) && lasttime == now
        && if now - old(lasttime) >= old(skiptics) then
             newtics == now - old(lasttime) - old(skiptics) && skiptics == 0
           else
             newtics == 0 && skiptics == old(skiptics) - (now - old(lasttime))
      ensures granted == old(granted) + newtics
      ensures granted - skiptics - lasttime == old(granted - skiptics - lasttime)
      ensures latest == Max(old(latest), TruncDiv(world.adjusted(old(adjustedReads)), ticdup))
    {
      var nowtime := TruncDiv(world.adjusted(adjustedReads), ticdup);
      adjustedReads := adjustedReads + 1;
      var due := nowtime - lasttime;
      lasttime := nowtime;
      if skiptics <= due {
        due := due - skiptics;
        skiptics := 0;
      } else {
        skiptics := skiptics - due;
        due := 0;
      }
      newtics := due;
      granted := granted + newtics;
      latest := Max(latest, nowtime);
    }

    /** Tics the next update earns. */
    ghost function DueNext(): int
      requires ticdup >= 1
      reads `singletics, `skiptics, `lasttime, `adjustedReads
    {
      if singletics then 0 else Due(skiptics, lasttime, TruncDiv(world.adjusted(adjustedReads), ticdup))
    }

    /** How far the network has delivered after it. */
    ghost function ReceivedNext(): int
      reads `singletics, `recvtic, `tics, `polls
    {
      if connected && !singletics then Min(recvtic + |world.arrivals(polls)|, tics + BACKUPTICS) else recvtic
    }

    method NetUpdate()
      requires Valid()
      modifies `maketic, `built, `recvtic, `received, `polls, `skiptics, `lasttime, `adjustedReads,
        `granted, `latest, ticdata
      ensures Valid() && old(built) <= built && old(received) <= received
      ensures old(maketic) <= maketic && old(recvtic) <= recvtic
      ensures granted == old(granted) + old(DueNext()) && recvtic == old(ReceivedNext())
      ensures granted - skiptics - lasttime == old(granted - skiptics - lasttime)
      ensures !singletics ==>
        && lasttime == TruncDiv(world.adjusted(old(adjustedReads)), ticdup)
        && adjustedReads == old(adjustedReads) + 1 && latest == Max(old(latest), lasttime)
      ensures maketic == Min(old(maketic) + old(DueNext()), tics + Limit())
    {
      hide Rings, History, Clock;
      if singletics {
        return;
      }
      if connected {
        PollNetwork();
      }
      var newtics := TicsDue();
      var i := 0;
      while i < newtics
        invariant 0 <= i <= newtics
        invariant Valid() && old(built) <= built
        invariant maketic == old(maketic) + i
        modifies `maketic, `built, ticdata
      {
        var more := BuildNewTic();
        if !more {
          break;
        }
        i := i + 1;
      }
    }

    method GetLowTic() returns (lowtic: nat)
      ensures lowtic == if connected then Min(maketic, recvtic) else maketic
    {
      lowtic := maketic;
      if connected {
        if recvtic < lowtic {
          lowtic := recvtic;
        }
      }
    }

    /** One reading of the game clock, in tics. */
    method GameTime() returns (time: int)
      requires Config()
      modifies `clockReads
      ensures time == TruncDiv(world.clock(old(clockReads)), ticdup)
      ensures clockReads == old(clockReads) + 1
    {
      time := TruncDiv(world.clock(clockReads), ticdup);
      clockReads := clockReads + 1;
    }

    method FindKeyPlayer() returns (keyplayer: nat)
      requires Config()
      ensures keyplayer == KeyPlayer(playeringame, 0)
    {
      keyplayer := 0;
      while keyplayer < NET_MAXPLAYERS && !playeringame[keyplayer]
        invariant keyplayer <= NET_MAXPLAYERS && KeyPlayer(playeringame, keyplayer) == KeyPlayer(playeringame, 0)
      {
        keyplayer := keyplayer + 1;
      }
    }

    /** What OldNetSync does for a player who is not the key player. */
    method Adapt()
      requires |frameskip| == 4 && Clock()
      modifies `lasttime, `frameskip, `oldnettics, `skiptics, `nudged
      ensures Clock() && nudged
      ensures lasttime == old(lasttime) - (if maketic <= recvtic then 1 else 0)
      ensures frameskip == old(frameskip)[frameon % 4 := old(oldnettics) > recvtic] && oldnettics == maketic
      ensures skiptics ==
        if frameskip[0] && frameskip[1] && frameskip[2] && frameskip[3] then 1 else old(skiptics)
    {
      nudged := true;
      if maketic <= recvtic {
        lasttime := lasttime - 1;
      }
      frameskip := frameskip[frameon % 4 := oldnettics > recvtic];
      oldnettics := maketic;
      if frameskip[0] && frameskip[1] && frameskip[2] && frameskip[3] {
        skiptics := 1;
      }
    }

    /** The classic net game speeds up or slows down a player who is ahead or behind. */
    method OldNetSync()
      requires Valid()
      modifies `frameon, `lasttime, `frameskip, `oldnettics, `skiptics, `nudged
      ensures Valid() && frameon == old(frameon) + 1
      ensures var adapts := KeyPlayer(playeringame, 0) < NET_MAXPLAYERS && KeyPlayer(playeringame, 0) != localplayer;
        if adapts then
          && lasttime == old(lasttime) - (if maketic <= recvtic then 1 else 0)
          && frameskip == old(frameskip)[frameon % 4 := old(oldnettics) > recvtic] && oldnettics == maketic
          && skiptics == (if frameskip[0] && frameskip[1] && frameskip[2] && frameskip[3] then 1 else old(skiptics))
        else
          lasttime == old(lasttime) && frameskip == old(frameskip) && oldnettics == old(oldnettics)
          && skiptics == old(skiptics) && nudged == old(nudged)
    {
      hide Rings, History, Counters, Clock, KeyPlayer;
      frameon := frameon + 1;
      var keyplayer := FindKeyPlayer();
      if keyplayer == NET_MAXPLAYERS || localplayer == keyplayer {
        return;
      }
      Adapt();
    }

    method ChooseCounts(realtics: int, availabletics: int) returns (counts: int)
      ensures counts == Decided(newSync, realtics, availabletics)
    {
      if newSync {
        counts := availabletics;
      } else {
        if realtics < availabletics - 1 {
          counts := realtics + 1;
        } else if realtics < availabletics {
          counts := realtics;
        } else {
          counts := availabletics;
        }
        if counts < 1 {
          counts := 1;
        }
      }
      if counts < 1 {
        counts := 1;
      }
    }

    /** The clock passes any point at last. */
    lemma ClockPasses(now: int, k: nat) returns (j: nat)
      requires Config()
      ensures k <= j && TruncDiv(world.clock(j), ticdup) > now
    {
      var v := (Abs(now) + 1) * ticdup;
      assert LaterThan(world.clock, k, v);
      j :| k <= j && world.clock(j) > v;
      QuotientAbove(world.clock(j), ticdup, Abs(now) + 1);
    }

    /** The last reading of the game clock was past that point. */
    ghost predicate MovedOn(entertic: int)
      reads `clockReads
    {
      ticdup >= 1 && clockReads > 0 && TruncDiv(world.clock(clockReads - 1), ticdup) > entertic
    }

    /** Waits for tics to arrive, unless they are there already, but gives up when the game clock has moved on. */
    method WaitForTics(entertic: int, counts: nat, lowtic0: nat) returns (lowtic: nat, ready: bool)
      requires Valid() && lowtic0 <= maketic && (connected ==> lowtic0 <= recvtic)
      modifies `maketic, `built, `recvtic, `received, `polls, `skiptics, `lasttime, `adjustedReads,
        `granted, `latest, `clockReads, ticdata
      ensures Valid() && old(built) <= built && old(received) <= received
      ensures lowtic <= maketic && (connected ==> lowtic <= recvtic)
      ensures ready ==> tics + counts <= lowtic
      ensures tics + counts <= lowtic0 ==> ready
      ensures !ready ==> MovedOn(entertic)
    {
      hide Rings, History, Clock, Counters, Config, DueNext, ReceivedNext, TruncDiv;
      lowtic := lowtic0;
      Standing();
      ghost var deadline := ClockPasses(entertic, clockReads);
      while lowtic < gametic / ticdup + counts
        invariant Valid() && old(built) <= built && old(received) <= received
        invariant lowtic <= maketic && (connected ==> lowtic <= recvtic)
        invariant tics + counts <= lowtic0 ==> lowtic == lowtic0
        invariant clockReads <= deadline
        decreases deadline - clockReads
      {
        NetUpdate();
        Standing();
        lowtic := GetLowTic();
        if lowtic < gametic / ticdup {
          assert false;  // "TryRunTics: lowtic < gametic"
        }
        var time := GameTime();
        if time - entertic > 0 {
          return lowtic, false;
        }
      }
      return lowtic, true;
    }

    /** Complete tics there are to run once a pass has made its first update, or built its one tic. */
    ghost function Available(): int
      requires ticdup >= 1
      reads `singletics, `skiptics, `lasttime, `adjustedReads, `recvtic, `tics, `polls, `maketic
    {
      var made := Min(maketic + if singletics then 1 else DueNext(), tics + Limit());
      (if connected then Min(made, ReceivedNext()) else made) - tics
    }

    /** That is the least of what will be built, the window of the sync mode, and in a net game what
        will have arrived. */
    lemma AvailableIsLeast()
      requires Valid()
      ensures var now := TruncDiv(world.adjusted(adjustedReads), ticdup);
        var earned := if singletics then 1 else if now - lasttime < skiptics then 0 else now - lasttime - skiptics;
        var made := maketic - tics + earned;
        var window := if !newSync then 5 else if connected then 9 else 3;
        var arrived := recvtic - tics + if singletics then 0 else |world.arrivals(polls)|;
        && Available() <= made && Available() <= window && (connected ==> Available() <= arrived)
        && (Available() == made || Available() == window || (connected && Available() == arrived))
    {
      hide Rings, History, TruncDiv;
    }

    /** Game time since the last pass. */
    ghost function Elapsed(): int
      requires ticdup >= 1
      reads `clockReads, `oldentertics
    {
      TruncDiv(world.clock(clockReads), ticdup) - oldentertics
    }

    /** The first part of TryRunTics: reads the clock, builds what is due, and looks how far
        everyone's commands reach. */
    method Prepare() returns (entertic: int, realtics: int, lowtic: nat)
      requires Valid()
      modifies `clockReads, `oldentertics, `maketic, `built, `recvtic, `received, `polls, `skiptics,
        `lasttime, `adjustedReads, `granted, `latest, ticdata
      ensures Valid() && old(built) <= built && old(received) <= received
      ensures lowtic <= maketic && (connected ==> lowtic <= recvtic)
      ensures 0 <= old(Available()) <= Limit() && lowtic == tics + old(Available())
      ensures realtics == old(Elapsed()) && oldentertics == entertic == old(oldentertics) + realtics
    {
      hide Rings, History, Clock, Counters, Config;
      Standing();
      entertic := GameTime();
      realtics := entertic - oldentertics;
      oldentertics := entertic;
      if singletics {
        var _ := BuildNewTic();
      } else {
        NetUpdate();
      }
      lowtic := GetLowTic();
    }

    method SlotOf(t: nat) returns (slot: nat)
      ensures slot == Slot(t)
    {
      slot := t % BACKUPTICS;
    }

    /** What the slot of the oldest tic holds before it runs. */
    lemma OldestSlot()
      requires Valid() && tics < maketic && (connected ==> tics < recvtic)
      ensures LocalSlot(ticdata[..], consistancy[..], built, localplayer, tics)
      ensures connected ==> RemoteSlot(ticdata[..], received, localplayer, tics)
    {
    }

    /** The set of the oldest tic, which in a single-player game is the local player's alone. */
    method OpenSlot() returns (slot: nat)
      requires Valid() && tics < maketic && (connected ==> tics < recvtic)
      modifies ticdata
      ensures slot == Slot(tics) && RanOnce(tics, 0, ticdata[slot])
      ensures ticdata[..] == old(ticdata[..])[slot := ticdata[slot]]
      ensures ticdata[slot].cmds[localplayer].consistancy == consistancy[slot]
    {
      hide Clock, Slot, History;
      OldestSlot();
      TicsAre(tics, 0, ticdup);
      slot := SlotOf(gametic / ticdup);
      if !connected {
        ticdata[slot] := SinglePlayerClear(ticdata[slot], localplayer);
      }
    }

    /** RunTic and G_Ticker for the local player: in a net game the command's consistency byte is
        compared with the ring, which then takes the new one. The comparison never fails. */
    method RunTic(s: TicSet)
      requires Config()
      requires gametic % ticdup == 0 ==> consistancy[Slot(gametic / ticdup)] == s.cmds[localplayer].consistancy
      modifies consistancy
      ensures consistancy[..] ==
        if world.checked(gametic) && gametic % ticdup == 0
        then old(consistancy[..])[Slot(gametic / ticdup) := world.place(gametic)]
        else old(consistancy[..])
    {
      var buf := gametic / ticdup % BACKUPTICS;
      var cmd := s.cmds[localplayer];
      if world.checked(gametic) && gametic % ticdup == 0 {
        if gametic > BACKUPTICS && consistancy[buf] != cmd.consistancy {
          assert false;  // "consistency failure"
        }
        consistancy[buf] := world.place(gametic);
      }
    }

    lemma NextRun(t: nat, j: nat, s: TicSet)
      requires localplayer < NET_MAXPLAYERS && t < |built| && (connected ==> t < |received|)
      requires RanOnce(t, j, s)
      ensures RanOnce(t, j + 1, SquashAll(s))
    {
      SquashTwice(built[t]);
      forall p | 0 <= p < NET_MAXPLAYERS && p != localplayer && connected
        ensures SquashAll(s).cmds[p] == Dup(received[t].cmds[p], j + 1)
      {
        SquashTwice(received[t].cmds[p]);
      }
    }

    /** One run of the set in the slot, which is then squashed for the next. */
    method RunDuplicate(slot: nat, i: nat, lowtic: nat)
      requires Config() && slot == Slot(tics) && i < ticdup && gametic == tics * ticdup + i
      requires tics < |built| && (connected ==> tics < |received|) && tics < lowtic
      requires RanOnce(tics, i, ticdata[slot])
      requires i == 0 ==> consistancy[slot] == ticdata[slot].cmds[localplayer].consistancy
      modifies `gametic, `playeringame, ticdata, consistancy
      ensures Config() && gametic == old(gametic) + 1
      ensures RanOnce(tics, i + 1, ticdata[slot])
      ensures ticdata[..] == old(ticdata[..])[slot := SquashAll(old(ticdata[slot]))]
      ensures playeringame == old(ticdata[slot]).ingame
      ensures consistancy[..] == if i == 0 && world.checked(old(gametic))
        then old(consistancy[..])[slot := world.place(old(gametic))] else old(consistancy[..])
    {
      hide Slot, RanOnce;
      TicsAre(tics, i, ticdup);
      if gametic / ticdup > lowtic {
        assert false;  // "gametic>lowtic"
      }
      playeringame := ticdata[slot].ingame;
      RunTic(ticdata[slot]);
      gametic := gametic + 1;
      NextRun(tics, i, ticdata[slot]);
      ticdata[slot] := TicdupSquash(ticdata[slot]);
    }

    lemma NothingRan(t: nat)
      requires localplayer < NET_MAXPLAYERS && t < |built| && (connected ==> t < |received|)
      ensures RanRight(t, [])
    {
    }

    lemma RanAlso(t: nat, sets: seq<TicSet>, s: TicSet)
      requires localplayer < NET_MAXPLAYERS && t < |built| && (connected ==> t < |received|)
      requires RanRight(t, sets) && RanOnce(t, |sets|, s)
      ensures RanRight(t, sets + [s])
    {
    }

    /** The books are closed on the tic that has just run. */
    ghost method Retire(sets: seq<TicSet>)
      requires Config() && Counts() && History() && Clock()
      requires tics < maketic && (connected ==> tics < recvtic)
      requires gametic == tics * ticdup + ticdup && |sets| == ticdup && RanRight(tics, sets)
      requires LocalSlots(ticdata[..], consistancy[..], built, localplayer, tics + 1)
      requires RemoteSlots(ticdata[..], received, localplayer, tics + 1)
      modifies `tics, `ran
      ensures Valid() && tics == old(tics) + 1 && ran == old(ran) + [sets]
    {
      hide LocalSlots, RemoteSlots, RanRight, Clock;
      NextTic(tics, ticdup);
      ran := ran + [sets];
      tics := tics + 1;
    }

    /** Runs the oldest tic, once for each duplicate. */
    method RunDuplicates(lowtic: nat)
      requires Valid() && tics < lowtic <= maketic && (connected ==> lowtic <= recvtic)
      modifies `gametic, `tics, `ran, `playeringame, ticdata, consistancy
      ensures Valid() && tics == old(tics) + 1 && old(ran) <= ran
      ensures playeringame == ran[old(tics)][ticdup - 1].ingame
      ensures consistancy[..] == if world.checked(old(gametic))
        then old(consistancy[..])[Slot(old(tics)) := world.place(old(gametic))] else old(consistancy[..])
    {
      hide Clock, LocalSlots, RemoteSlots, Slot, RanRight, RanOnce, History;
      ghost var data, check := ticdata[..], consistancy[..];
      var slot := OpenSlot();
      ghost var sets: seq<TicSet> := [];
      ghost var b := check[slot];
      NothingRan(tics);
      for i := 0 to ticdup
        invariant Config() && gametic == tics * ticdup + i && |sets| == i
        invariant RanRight(tics, sets)
        invariant RanOnce(tics, i, ticdata[slot])
        invariant ticdata[..] == data[slot := ticdata[slot]]
        invariant consistancy[..] == check[slot := b]
        invariant i > 0 ==> playeringame == sets[i - 1].ingame
        invariant i > 0 ==> b == if world.checked(old(gametic)) then world.place(old(gametic)) else check[slot]
        invariant i == 0 ==> gametic == old(gametic) && check[slot] == b == ticdata[slot].cmds[localplayer].consistancy
        modifies `gametic, `playeringame, ticdata, consistancy
      {
        ghost var current := ticdata[slot];
        RunDuplicate(slot, i, lowtic);
        b := consistancy[slot];
        RanAlso(tics, sets, current);
        sets := sets + [current];
      }
      RunKeeps(data, check, built, received, localplayer, tics, ticdata[slot], b);
      Retire(sets);
    }

    /** Runs that many tics, building new commands after each. */
    method RunTics(counts: nat, lowtic: nat)
      requires Valid() && tics + counts <= lowtic <= maketic && (connected ==> lowtic <= recvtic)
      modifies `maketic, `built, `recvtic, `received, `polls, `skiptics, `lasttime, `adjustedReads,
        `granted, `latest, `gametic, `tics, `ran, `playeringame, ticdata, consistancy
      ensures Valid() && tics == old(tics) + counts
      ensures old(built) <= built && old(received) <= received && old(ran) <= ran
    {
      hide Rings, History, Clock;
      ghost var t0 := tics;
      for left := counts downto 0
        invariant tics == t0 + (counts - left)
        invariant Valid() && t0 + counts <= lowtic <= maketic && (connected ==> lowtic <= recvtic)
        invariant old(built) <= built && old(received) <= received && old(ran) <= ran
      {
        RunDuplicates(lowtic);
        NetUpdate();
      }
    }

    /** The second part of TryRunTics: runs that many tics once they are there. */
    method RunWhenReady(entertic: int, counts: nat, lowtic0: nat)
      requires Valid() && lowtic0 <= maketic && (connected ==> lowtic0 <= recvtic) && counts > 0
      modifies `maketic, `built, `recvtic, `received, `polls, `skiptics, `lasttime, `adjustedReads,
        `granted, `latest, `clockReads, `gametic, `tics, `ran, `playeringame, ticdata, consistancy
      ensures Valid()
      ensures old(built) <= built && old(received) <= received && old(ran) <= ran
      ensures tics == old(tics) || tics == old(tics) + counts
      ensures gametic == old(gametic) + (tics - old(tics)) * ticdup
      ensures tics == old(tics) ==>
        && old(tics) + counts > lowtic0
        && clockReads > 0 && TruncDiv(world.clock(clockReads - 1), ticdup) > entertic
    {
      hide Rings, History, Clock, Counters, Config;
      Standing();
      var lowtic, ready := WaitForTics(entertic, counts, lowtic0);
      if ready {
        RunTics(counts, lowtic);
        Standing();
      }
      TicsApart(old(tics), tics, ticdup);
    }

    lemma ElapsedIs()
      requires ticdup >= 1
      ensures oldentertics + Elapsed() == TruncDiv(world.clock(clockReads), ticdup)
    {
    }

    /** One pass of the main loop: exactly as many tics run as the elapsed time and the tics at hand
        decide; none only if none was at hand and the clock moved on before one arrived. Under the
        new sync everything at hand runs. Under the old, as much as the time that passed allows; a
        backlog of one tic is left alone, and a larger one shrinks by one. */
    method TryRunTics()
      requires Valid()
      modifies `clockReads, `oldentertics, `maketic, `built, `recvtic, `received, `polls, `skiptics,
        `lasttime, `adjustedReads, `granted, `latest, `frameon, `frameskip, `oldnettics, `nudged,
        `gametic, `tics, `ran, `playeringame, ticdata, consistancy
      ensures Valid()
      ensures old(built) <= built && old(received) <= received && old(ran) <= ran
      ensures oldentertics == old(oldentertics + Elapsed()) == TruncDiv(world.clock(old(clockReads)), ticdup)
      ensures var counts := Decided(newSync, old(Elapsed()), old(Available()));
        counts <= Limit() && (tics == old(tics) || tics == old(tics) + counts)
      ensures gametic == old(gametic) + (tics - old(tics)) * ticdup
      ensures old(Available()) >= 1 ==> var run, ready, elapsed := tics - old(tics), old(Available()), old(Elapsed());
        && (newSync || elapsed >= ready ==> run == ready)
        && (!newSync && 1 <= elapsed && ready - elapsed == 1 ==> run == elapsed)
        && (!newSync && 1 <= elapsed && ready - elapsed > 1 ==> run == elapsed + 1)
        && (!newSync && elapsed <= 0 ==> run == 1)
      ensures tics == old(tics) ==>
        && old(Available()) == 0
        && clockReads > 0 && TruncDiv(world.clock(clockReads - 1), ticdup) > oldentertics
    {
      hide Rings, History, Clock, Counters, Config, Decided, Available, Elapsed, TruncDiv, MovedOn;
      Standing();
      DecidedInFull(newSync, Elapsed(), Available());
      ElapsedIs();
      var entertic, realtics, lowtic := Prepare();
      Standing();
      var availabletics := lowtic - gametic / ticdup;
      var counts := ChooseCounts(realtics, availabletics);
      if !newSync && connected {
        OldNetSync();
      }
      RunWhenReady(entertic, counts, lowtic);
    }

    /** No tic is lost or invented: what the clock granted is how far its latest reading is past the
        start, as long as OldNetSync did not interfere. */
    lemma GrantedIsElapsed()
      requires Valid() && !nudged
      ensures granted == latest - started && latest == lasttime + skiptics && skiptics >= 0
    {
      hide Rings, History, Counters;
    }

    /** Building stays ahead of the game by no more than the limit of the sync mode in use, and
        the game stands at the start of a tic whenever it is not running one. */
    lemma WindowBounded()
      requires Valid()
      ensures 0 <= maketic - gametic / ticdup <= Limit() == if !newSync then 5 else if connected then 9 else 3
      ensures gametic % ticdup == 0
    {
      hide Rings, History, Clock, Counters;
      Standing();
    }

    /** The j-th run of tic t had the command built for that tic: as it was built on the first
        duplicate, squashed on the later ones; and likewise what was received for the others. */
    ghost predicate RunWasRight(t: int, j: int)
      requires localplayer < NET_MAXPLAYERS
      reads `built, `received, `ran
    {
      && 0 <= t < |ran| && 0 <= j < |ran[t]| && t < |built| && (connected ==> t < |received|)
      && RanOnce(t, j, ran[t][j])
      && built[t] == world.input(t).(consistancy := built[t].consistancy)
    }

    lemma EveryRunRight(t: nat, j: nat)
      requires Valid() && t < tics && j < ticdup
      ensures RunWasRight(t, j)
    {
      hide Rings, Clock, RanOnce;
      assert RanRight(t, ran[t]);
    }

    /** In the fields: the first run of a tic has the commands as they are, and the later ones
        without chat and special buttons; alone, nobody else is in the game. */
    lemma RunInFields(t: int, j: int)
      requires localplayer < NET_MAXPLAYERS && RunWasRight(t, j)
      ensures 0 <= t < |ran| && 0 <= j < |ran[t]| && t < |built| && (connected ==> t < |received|)
      ensures built[t] == world.input(t).(consistancy := built[t].consistancy)
      ensures var s, cmd := ran[t][j], built[t];
        && s.ingame[localplayer]
        && s.cmds[localplayer] == if j == 0 then cmd
             else cmd.(chatchar := 0, buttons := if cmd.buttons >= 128 then 0 else cmd.buttons)
      ensures forall p | 0 <= p < NET_MAXPLAYERS && p != localplayer ::
        ran[t][j].ingame[p] == (connected && received[t].ingame[p])
      ensures connected ==> forall p | 0 <= p < NET_MAXPLAYERS && p != localplayer ::
        var cmd := received[t].cmds[p];
        ran[t][j].cmds[p] == if j == 0 then cmd
          else cmd.(chatchar := 0, buttons := if cmd.buttons >= 128 then 0 else cmd.buttons)
    {
    }

    /** So every game tic ever run had the right commands. */
    lemma EveryTicRanRight(g: nat)
      requires Valid() && g < gametic
      ensures RunWasRight(g / ticdup, g % ticdup)
    {
      hide Rings, Clock, History, Counters, RunWasRight;
      Standing();
      TicOf(g, tics, ticdup);
      EveryRunRight(g / ticdup, g % ticdup);
    }
  }
}
