/** The demo file format (g_game.c): the header, the 4- or 5-byte records and the end marker. */
module DemoFormat {
  import opened TicCommand

  const DEMOMARKER: Byte := 0x80
  const DOOM_191_VERSION: Byte := 111
  const MAXPLAYERS := 4
  const HEADER_SIZE := 13

  // ---- Records ----

  function RecordSize(longtics: bool): nat {
    if longtics then 5 else 4
  }

  function Encode(cmd: Ticcmd, longtics: bool): (r: seq<Byte>)
    ensures |r| == RecordSize(longtics)
  {
    [ToByte(cmd.forwardmove), ToByte(cmd.sidemove)]
    + (if longtics then [ToByte(cmd.angleturn), ToByte(cmd.angleturn / 0x100)] else [ToByte(cmd.angleturn / 0x100)])
    + [ToByte(cmd.buttons)]
  }

  function TurnField(data: seq<Byte>, longtics: bool): (x: int)
    requires |data| >= RecordSize(longtics)
    ensures 0 <= x < 0x1_0000
  {
    var low: int, high: int := data[2], data[3];
    if longtics then low + 0x100 * high else 0x100 * low
  }

  /** Overwrites the four recorded fields of `cmd` with the record at the start of `data`. */
  function Decode(data: seq<Byte>, cmd: Ticcmd, longtics: bool): Ticcmd
    requires |data| >= RecordSize(longtics)
  {
    cmd.(forwardmove := ToSByte(data[0]), sidemove := ToSByte(data[1]),
         angleturn := ToShort(TurnField(data, longtics)),
         buttons := data[RecordSize(longtics) - 1])
  }

  /** What the format keeps of a command: the short one drops the low byte of the turn. */
  function AsRecorded(cmd: Ticcmd, longtics: bool): Ticcmd {
    if longtics then cmd else cmd.(angleturn := cmd.angleturn - cmd.angleturn % 0x100)
  }

  /** `a` with the four recorded fields of `b`. */
  function WithMoves(a: Ticcmd, b: Ticcmd): Ticcmd {
    a.(forwardmove := b.forwardmove, sidemove := b.sidemove, angleturn := b.angleturn, buttons := b.buttons)
  }

  /** The layout of a record: the moves first, then the turn, low byte first or its high byte only,
      and the buttons. Fields are cut to bytes. */
  lemma RecordLayout(cmd: Ticcmd, longtics: bool)
    ensures |Encode(cmd, longtics)| == if longtics then 5 else 4
    ensures var r := Encode(cmd, longtics);
      && r[0] == cmd.forwardmove % 0x100 && r[1] == cmd.sidemove % 0x100
      && (longtics ==> r[2] == cmd.angleturn % 0x100 && r[3] == cmd.angleturn / 0x100 % 0x100 && r[4] == cmd.buttons)
      && (!longtics ==> r[2] == cmd.angleturn / 0x100 % 0x100 && r[3] == cmd.buttons)
  {
  }

  /** What is read from a record: signed moves, and the turn as a 16-bit number; the rest of the
      command stays. */
  lemma RecordFields(data: seq<Byte>, cmd: Ticcmd, longtics: bool)
    requires |data| >= if longtics then 5 else 4
    ensures var d, third: int, fourth: int := Decode(data, cmd, longtics), data[2], data[3];
      && (d.forwardmove - data[0]) % 0x100 == 0 && (d.sidemove - data[1]) % 0x100 == 0
      && d.chatchar == cmd.chatchar && d.consistancy == cmd.consistancy
      && (longtics ==> (d.angleturn - third - 0x100 * fourth) % 0x1_0000 == 0 && d.buttons == data[4])
      && (!longtics ==> (d.angleturn - 0x100 * third) % 0x1_0000 == 0 && d.buttons == data[3])
  {
  }

  /** The short format keeps the turn rounded down to a multiple of 256, and both formats everything
      else that is recorded. */
  lemma RecordedIs(cmd: Ticcmd, into: Ticcmd, longtics: bool)
    ensures var r := WithMoves(into, AsRecorded(cmd, longtics));
      && r.forwardmove == cmd.forwardmove && r.sidemove == cmd.sidemove && r.buttons == cmd.buttons
      && r.chatchar == into.chatchar && r.consistancy == into.consistancy
      && (longtics ==> r.angleturn == cmd.angleturn)
      && (!longtics ==> r.angleturn % 0x100 == 0 && 0 <= cmd.angleturn - r.angleturn < 0x100)
    ensures AsRecorded(cmd, longtics) == WithMoves(cmd, AsRecorded(cmd, longtics))
  {
  }

  lemma HighByte(t: Short)
    ensures ToShort(0x100 * ToByte(t / 0x100)) == t - t % 0x100
    ensures ToShort(ToByte(t) + 0x100 * ToByte(t / 0x100)) == t
  {
    var h := t / 0x100;
    assert -0x80 <= h < 0x80;
    assert ToByte(h) == if h >= 0 then h else h + 0x100;
  }

  lemma SignedByte(x: SByte)
    ensures ToSByte(ToByte(x)) == x
    ensures ToByte(x) == DEMOMARKER <==> x == -0x80
  {
  }

  lemma EncodedBytes(cmd: Ticcmd, longtics: bool, rest: seq<Byte>)
    ensures var data := Encode(cmd, longtics) + rest;
      && data[0] == ToByte(cmd.forwardmove) && data[1] == ToByte(cmd.sidemove)
      && data[RecordSize(longtics) - 1] == cmd.buttons
      && TurnField(data, longtics) ==
           (if longtics then ToByte(cmd.angleturn) else 0) + 0x100 * ToByte(cmd.angleturn / 0x100)
  {
  }

  lemma DecodeEncode(cmd: Ticcmd, into: Ticcmd, longtics: bool, rest: seq<Byte>)
    ensures Decode(Encode(cmd, longtics) + rest, into, longtics) == WithMoves(into, AsRecorded(cmd, longtics))
  {
    hide Encode, TurnField, ToByte, ToSByte, ToShort;
    EncodedBytes(cmd, longtics, rest);
    SignedByte(cmd.forwardmove);
    SignedByte(cmd.sidemove);
    HighByte(cmd.angleturn);
  }

  lemma SByteBytes(b: Byte)
    ensures ToByte(ToSByte(b)) == b == ToByte(b)
  {
  }

  lemma TurnBytes(low: Byte, high: Byte)
    ensures ToByte(ToShort(low + 0x100 * high)) == low
    ensures ToByte(ToShort(low + 0x100 * high) / 0x100) == high
  {
    var x: int := low + 0x100 * high;
    var h := if high < 0x80 then high else high - 0x100;
    assert ToShort(x) == low + 0x100 * h;
    assert ToShort(x) / 0x100 == h;
  }

  /** The records are in one-to-one correspondence with the commands: re-recording what was read
      reproduces the bytes. */
  lemma EncodeDecode(data: seq<Byte>, into: Ticcmd, longtics: bool)
    requires |data| == RecordSize(longtics)
    ensures Encode(Decode(data, into, longtics), longtics) == data
  {
    hide ToByte, ToSByte, ToShort;
    SByteBytes(data[0]);
    SByteBytes(data[1]);
    SByteBytes(data[RecordSize(longtics) - 1]);
    var low: int, high: int := data[2], data[3];
    TurnBytes(low, high);
    TurnBytes(0, low);
  }

  // ---- Streams ----

  /** The records of the commands, one after the other. */
  function Stream(cmds: seq<Ticcmd>, longtics: bool): seq<Byte> {
    if cmds == [] then [] else Stream(cmds[..|cmds| - 1], longtics) + Encode(cmds[|cmds| - 1], longtics)
  }

  lemma StreamAppend(cmds: seq<Ticcmd>, cmd: Ticcmd, longtics: bool)
    ensures Stream(cmds + [cmd], longtics) == Stream(cmds, longtics) + Encode(cmd, longtics)
  {
    hide Encode;
    assert (cmds + [cmd])[..|cmds|] == cmds;
  }

  /** A record lying in a buffer at p reads back as recorded, over the command itself. */
  lemma RecordAt(buffer: seq<Byte>, p: nat, cmd: Ticcmd, longtics: bool)
    requires p + RecordSize(longtics) <= |buffer|
    requires buffer[p..p + RecordSize(longtics)] == Encode(cmd, longtics)
    ensures Decode(buffer[p..], cmd, longtics) == AsRecorded(cmd, longtics)
    ensures buffer[p] == DEMOMARKER <==> cmd.forwardmove == -0x80
  {
    hide Encode, Decode, ToByte;
    var rest := buffer[p + RecordSize(longtics)..];
    assert buffer[p..] == Encode(cmd, longtics) + rest;
    DecodeEncode(cmd, cmd, longtics, rest);
    EncodedBytes(cmd, longtics, rest);
    assert buffer[p] == buffer[p..][0];
    SignedByte(cmd.forwardmove);
  }

  /** It extends the stream before it. */
  lemma RecordExtends(buffer: seq<Byte>, p: nat, cmd: Ticcmd, longtics: bool, opening: seq<Byte>, taken: seq<Ticcmd>)
    requires p + RecordSize(longtics) <= |buffer|
    requires buffer[p..p + RecordSize(longtics)] == Encode(cmd, longtics)
    requires buffer[..p] == opening + Stream(taken, longtics)
    ensures buffer[..p + RecordSize(longtics)] == opening + Stream(taken + [cmd], longtics)
  {
    hide Encode, Stream;
    StreamAppend(taken, cmd, longtics);
    assert buffer[..p + RecordSize(longtics)] == buffer[..p] + Encode(cmd, longtics);
  }

  datatype Playback = Stopped(cmds: seq<Ticcmd>) | RanOff

  /** The live command a record is read over; past the last one, an empty command. */
  function Next(live: seq<Ticcmd>): Ticcmd {
    if live == [] then EMPTY_TICCMD else live[0]
  }

  /** What is left of the live commands after one record. */
  function Rest(live: seq<Ticcmd>): seq<Ticcmd> {
    if live == [] then [] else live[1..]
  }

  /** Reads records up to the end marker, each over the matching live command. */
  function Play(data: seq<Byte>, longtics: bool, live: seq<Ticcmd>): Playback
    decreases |data|
  {
    if data == [] then RanOff
    else if data[0] == DEMOMARKER then Stopped([])
    else if |data| < RecordSize(longtics) then RanOff
    else
      var first := Decode(data, Next(live), longtics);
      match Play(data[RecordSize(longtics)..], longtics, Rest(live))
      case RanOff => RanOff
      case Stopped(cmds) => Stopped([first] + cmds)
  }

  lemma {:induction false} StreamFront(cmds: seq<Ticcmd>, longtics: bool)
    requires cmds != []
    ensures Stream(cmds, longtics) == Encode(cmds[0], longtics) + Stream(cmds[1..], longtics)
  {
    hide Encode;
    if |cmds| == 1 {
      assert cmds[..0] == [] && cmds[1..] == [];
    } else {
      var init, last := cmds[..|cmds| - 1], cmds[|cmds| - 1];
      StreamFront(init, longtics);
      assert cmds[1..][..|cmds| - 2] == init[1..] && cmds[1..][|cmds| - 2] == last;
      assert Stream(cmds[1..], longtics) == Stream(init[1..], longtics) + Encode(last, longtics);
    }
  }

  /** A playback that starts with commands already read. */
  function After(read: seq<Ticcmd>, p: Playback): Playback {
    match p
    case RanOff => RanOff
    case Stopped(cmds) => Stopped(read + cmds)
  }

  lemma PlayNext(data: seq<Byte>, longtics: bool, live: seq<Ticcmd>, read: seq<Ticcmd>)
    requires Play(data, longtics, live) != RanOff
    ensures data != []
    ensures data[0] == DEMOMARKER ==> After(read, Play(data, longtics, live)) == Stopped(read)
    ensures data[0] != DEMOMARKER ==>
      && |data| >= RecordSize(longtics)
      && After(read, Play(data, longtics, live)) ==
           After(read + [Decode(data, Next(live), longtics)],
                 Play(data[RecordSize(longtics)..], longtics, Rest(live)))
  {
    hide Decode;
  }

  predicate Markerless(cmds: seq<Ticcmd>) {
    forall i | 0 <= i < |cmds| :: cmds[i].forwardmove != -0x80
  }

  /** The recorded part of each command, over the matching live one. */
  function Replayed(cmds: seq<Ticcmd>, longtics: bool, live: seq<Ticcmd>): (r: seq<Ticcmd>)
    requires |live| >= |cmds|
    ensures |r| == |cmds|
    ensures forall i | 0 <= i < |cmds| :: r[i] == WithMoves(live[i], AsRecorded(cmds[i], longtics))
    decreases |cmds|
  {
    if cmds == [] then []
    else [WithMoves(live[0], AsRecorded(cmds[0], longtics))] + Replayed(cmds[1..], longtics, live[1..])
  }

  lemma PlayFirst(cmd: Ticcmd, longtics: bool, live: seq<Ticcmd>, rest: seq<Byte>)
    requires live != []
    ensures Play(Encode(cmd, longtics) + rest, longtics, live) ==
      if cmd.forwardmove == -0x80 then Stopped([])
      else match Play(rest, longtics, live[1..])
           case RanOff => RanOff
           case Stopped(cmds) => Stopped([WithMoves(live[0], AsRecorded(cmd, longtics))] + cmds)
  {
    hide Encode, Decode, WithMoves, AsRecorded, ToByte;
    var data := Encode(cmd, longtics) + rest;
    EncodedBytes(cmd, longtics, rest);
    SignedByte(cmd.forwardmove);
    assert data[RecordSize(longtics)..] == rest;
    DecodeEncode(cmd, live[0], longtics, rest);
  }

  lemma MarkerlessFront(cmds: seq<Ticcmd>)
    ensures Markerless(cmds) <==> (cmds != [] ==> cmds[0].forwardmove != -0x80 && Markerless(cmds[1..]))
  {
    assert cmds != [] ==> cmds == [cmds[0]] + cmds[1..];
  }

  /** One record more at the front. */
  lemma PlayStep(cmds: seq<Ticcmd>, longtics: bool, live: seq<Ticcmd>, tail: seq<Byte>)
    requires cmds != [] && |live| >= |cmds|
    ensures Play(Encode(cmds[0], longtics) + tail, longtics, live) == Stopped(Replayed(cmds, longtics, live)) <==>
      cmds[0].forwardmove != -0x80 &&
      Play(tail, longtics, live[1..]) == Stopped(Replayed(cmds[1..], longtics, live[1..]))
  {
    hide Encode, Decode, WithMoves, AsRecorded, Play;
    PlayFirst(cmds[0], longtics, live, tail);
    match Play(tail, longtics, live[1..])
    case RanOff =>
    case Stopped(rest) =>
      assert ([WithMoves(live[0], AsRecorded(cmds[0], longtics))] + rest)[1..] == rest;
      assert Replayed(cmds, longtics, live)[1..] == Replayed(cmds[1..], longtics, live[1..]);
  }

  /** Playing a finished recording yields every command as recorded and stops at the marker,
      exactly when no command looks like the marker. */
  lemma {:induction false} PlayStream(cmds: seq<Ticcmd>, longtics: bool, live: seq<Ticcmd>, rest: seq<Byte>)
    requires |live| >= |cmds|
    ensures Markerless(cmds) <==>
      Play(Stream(cmds, longtics) + [DEMOMARKER] + rest, longtics, live) == Stopped(Replayed(cmds, longtics, live))
    decreases |cmds|
  {
    hide Encode, Decode, WithMoves, AsRecorded, Markerless;
    MarkerlessFront(cmds);
    if cmds == [] {
    } else {
      var tail := Stream(cmds[1..], longtics) + [DEMOMARKER] + rest;
      assert Stream(cmds, longtics) + [DEMOMARKER] + rest == Encode(cmds[0], longtics) + tail by {
        StreamFront(cmds, longtics);
      }
      PlayStream(cmds[1..], longtics, live[1..], rest);
      PlayStep(cmds, longtics, live, tail);
    }
  }

  // ---- The header ----

  datatype Header = Header(gameskill: int, gameepisode: int, gamemap: int, deathmatch: int,
                           respawnparm: int, fastparm: int, nomonsters: int, consoleplayer: int, playeringame: seq<int>)
  {
    predicate Valid() {
      |playeringame| == MAXPLAYERS
    }

    /** The header's fields in file order. */
    function Fields(): (r: seq<int>)
      requires Valid()
      ensures |r| == HEADER_SIZE - 1
    {
      [gameskill, gameepisode, gamemap, deathmatch, respawnparm, fastparm, nomonsters, consoleplayer] + playeringame
    }
  }

  function HeaderBytes(version: Byte, h: Header): (r: seq<Byte>)
    requires h.Valid()
    ensures |r| == HEADER_SIZE
  {
    [version] + seq(HEADER_SIZE - 1, i requires 0 <= i < HEADER_SIZE - 1 => ToByte(h.Fields()[i]))
  }

  lemma HeaderParts(version: Byte, h: Header)
    requires h.Valid()
    ensures HeaderBytes(version, h) ==
      [version] + [ToByte(h.gameskill)] + [ToByte(h.gameepisode)] + [ToByte(h.gamemap)] + [ToByte(h.deathmatch)]
      + [ToByte(h.respawnparm)] + [ToByte(h.fastparm)] + [ToByte(h.nomonsters)] + [ToByte(h.consoleplayer)]
      + seq(MAXPLAYERS, i requires 0 <= i < MAXPLAYERS => ToByte(h.playeringame[i]))
  {
  }

  function ReadHeader(data: seq<Byte>): (h: Header)
    requires |data| >= HEADER_SIZE
    ensures h.Valid()
  {
    Header(data[1], data[2], data[3], data[4], data[5], data[6], data[7], data[8],
           [data[9], data[10], data[11], data[12]])
  }

  lemma ReadFields(data: seq<Byte>)
    requires |data| >= HEADER_SIZE
    ensures forall i | 0 <= i < HEADER_SIZE - 1 :: ReadHeader(data).Fields()[i] == data[i + 1]
  {
  }

  lemma FieldsInjective(a: Header, b: Header)
    requires a.Valid() && b.Valid() && a.Fields() == b.Fields()
    ensures a == b
  {
    assert a.playeringame == a.Fields()[8..] && b.playeringame == b.Fields()[8..];
    assert a.Fields()[0] == a.gameskill && a.Fields()[1] == a.gameepisode && a.Fields()[2] == a.gamemap;
    assert a.Fields()[3] == a.deathmatch && a.Fields()[4] == a.respawnparm && a.Fields()[5] == a.fastparm;
    assert a.Fields()[6] == a.nomonsters && a.Fields()[7] == a.consoleplayer;
  }

  /** Each header field comes back cut to a byte, so the header survives exactly when its fields
      are bytes. */
  lemma HeaderRoundTrip(version: Byte, h: Header, rest: seq<Byte>)
    requires h.Valid()
    ensures var r := ReadHeader(HeaderBytes(version, h) + rest);
      && (forall i | 0 <= i < HEADER_SIZE - 1 :: r.Fields()[i] == h.Fields()[i] % 0x100)
      && (r == h <==> forall i | 0 <= i < HEADER_SIZE - 1 :: 0 <= h.Fields()[i] < 0x100)
  {
    hide Header.Fields;
    var data := HeaderBytes(version, h) + rest;
    var r := ReadHeader(data);
    ReadFields(data);
    assert forall i | 0 <= i < HEADER_SIZE - 1 :: data[i + 1] == ToByte(h.Fields()[i]);
    if forall i | 0 <= i < HEADER_SIZE - 1 :: 0 <= h.Fields()[i] < 0x100 {
      assert r.Fields() == h.Fields();
      FieldsInjective(r, h);
    }
  }

  // ---- Files ----

  /** The version byte tells the record format. */
  function Version(longtics: bool, vanilla: Byte): Byte {
    if longtics then DOOM_191_VERSION else vanilla
  }

  /** And back; any other version byte leaves the format as it was. */
  function FormatOf(version: Byte, vanilla: Byte, before: bool): bool {
    if version == vanilla then false else version == DOOM_191_VERSION || before
  }

  /** A finished demo file. */
  function FileOf(longtics: bool, vanilla: Byte, h: Header, cmds: seq<Ticcmd>): (r: seq<Byte>)
    requires h.Valid()
    ensures |r| > HEADER_SIZE
  {
    HeaderBytes(Version(longtics, vanilla), h) + Stream(cmds, longtics) + [DEMOMARKER]
  }

  /** It plays back in full: the format and header are recovered, every command comes back as
      recorded, over whatever live commands, and playback stops at the marker. */
  lemma FilePlaysBack(longtics: bool, vanilla: Byte, before: bool, h: Header, cmds: seq<Ticcmd>, live: seq<Ticcmd>)
    requires h.Valid() && vanilla != DOOM_191_VERSION && Markerless(cmds) && |live| >= |cmds|
    ensures var file := FileOf(longtics, vanilla, h, cmds);
      && FormatOf(file[0], vanilla, before) == longtics
      && (ReadHeader(file) == h <==> forall i | 0 <= i < HEADER_SIZE - 1 :: 0 <= h.Fields()[i] < 0x100)
      && Play(file[HEADER_SIZE..], longtics, live) == Stopped(Replayed(cmds, longtics, live))
  {
    hide Stream, Play, Replayed, Header.Fields, ReadHeader;
    var body := Stream(cmds, longtics) + [DEMOMARKER];
    var file := FileOf(longtics, vanilla, h, cmds);
    assert file == HeaderBytes(Version(longtics, vanilla), h) + body;
    HeaderRoundTrip(Version(longtics, vanilla), h, body);
    assert file[HEADER_SIZE..] == body == body + [];
    PlayStream(cmds, longtics, live, []);
  }
}
