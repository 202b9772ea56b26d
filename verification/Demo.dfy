/** Recording and playing back a demo (g_game.c): the buffer, the pointer that walks it, and the
    read-back of every record as it is written. */
module Demo {
  import opened TicCommand
  import opened DemoFormat

  /** I_Error ends the program; a finished recording leaves its file behind. */
  datatype Exit = Running | Exited(file: seq<Byte>)

  class Demo {
    var demobuffer: array<Byte>
    var demo_p: nat
    var longtics: bool
    var demorecording: bool
    var demoplayback: bool
    var exit: Exit
    ghost var vanilla: Byte       // the running game's version byte when recording began
    ghost var opening: Header     // the settings it began with
    ghost var taken: seq<Ticcmd>  // the commands recorded so far

    /** The state the program starts in. */
    constructor ()
      ensures !demorecording && !demoplayback && exit == Running
    {
      demobuffer := new Byte[0];
      demo_p, longtics, demorecording, demoplayback, exit := 0, false, false, false, Running;
    }

    /** G_RecordDemo: a buffer of so many KiB. */
    constructor RecordDemo(maxdemo: nat)
      ensures demorecording && !demoplayback && exit == Running
      ensures demobuffer.Length == maxdemo * 1024 && fresh(demobuffer)
    {
      demobuffer := new Byte[maxdemo * 1024];
      demo_p, longtics, demorecording, demoplayback, exit := 0, false, true, false, Running;
    }

    /** What has been written so far, and room for two more records and a marker. */
    ghost predicate Recording()
      reads this, demobuffer
    {
      && demorecording && !demoplayback && exit == Running
      && demo_p + 11 <= demobuffer.Length
      && opening.Valid() && Markerless(taken)
      && demobuffer[..demo_p] == HeaderBytes(Version(longtics, vanilla), opening) + Stream(taken, longtics)
    }

    /** The file a recording ends in. */
    ghost function Finished(): seq<Byte>
      requires opening.Valid()
      reads `longtics, `vanilla, `opening, `taken
    {
      FileOf(longtics, vanilla, opening, taken)
    }

    /** Appends one byte: `*demo_p++ = b`. */
    method Put(b: Byte)
      requires demo_p < demobuffer.Length
      modifies `demo_p, demobuffer
      ensures demo_p == old(demo_p) + 1
      ensures demobuffer[..demo_p] == old(demobuffer[..demo_p]) + [b]
    {
      demobuffer[demo_p] := b;
      demo_p := demo_p + 1;
    }

    /** The eight settings that follow the version byte. */
    method PutSettings(h: Header)
      requires demo_p + 8 <= demobuffer.Length
      modifies `demo_p, demobuffer
      ensures demo_p == old(demo_p) + 8
      ensures demobuffer[..demo_p] == old(demobuffer[..demo_p])
        + [ToByte(h.gameskill)] + [ToByte(h.gameepisode)] + [ToByte(h.gamemap)] + [ToByte(h.deathmatch)]
        + [ToByte(h.respawnparm)] + [ToByte(h.fastparm)] + [ToByte(h.nomonsters)] + [ToByte(h.consoleplayer)]
    {
      Put(ToByte(h.gameskill));
      Put(ToByte(h.gameepisode));
      Put(ToByte(h.gamemap));
      Put(ToByte(h.deathmatch));
      Put(ToByte(h.respawnparm));
      Put(ToByte(h.fastparm));
      Put(ToByte(h.nomonsters));
      Put(ToByte(h.consoleplayer));
    }

    method PutPlayers(h: Header)
      requires h.Valid() && demo_p + MAXPLAYERS <= demobuffer.Length
      modifies `demo_p, demobuffer
      ensures demo_p == old(demo_p) + MAXPLAYERS
      ensures demobuffer[..demo_p] == old(demobuffer[..demo_p])
        + seq(MAXPLAYERS, i requires 0 <= i < MAXPLAYERS => ToByte(h.playeringame[i]))
    {
      ghost var bytes := seq(MAXPLAYERS, i requires 0 <= i < MAXPLAYERS => ToByte(h.playeringame[i]));
      for i := 0 to MAXPLAYERS
        invariant demo_p == old(demo_p) + i
        invariant demobuffer[..demo_p] == old(demobuffer[..demo_p]) + bytes[..i]
      {
        Put(ToByte(h.playeringame[i]));
      }
    }

    method BeginRecording(long: bool, vanillaVersion: Byte, h: Header)
      requires demorecording && !demoplayback && exit == Running && demobuffer.Length >= 1024
      requires h.Valid()
      modifies this, demobuffer
      ensures Recording() && unchanged(`demobuffer)
      ensures longtics == long && vanilla == vanillaVersion && opening == h && taken == []
      ensures demobuffer[..demo_p] == HeaderBytes(Version(long, vanillaVersion), h)
      ensures demo_p == 13 && demobuffer[0] == if long then 111 else vanillaVersion
    {
      hide HeaderBytes, Header.Fields, ToByte;
      ghost var version := Version(long, vanillaVersion);
      longtics := long;
      demo_p := 0;
      if longtics {
        Put(DOOM_191_VERSION);
      } else {
        Put(vanillaVersion);
      }
      assert demobuffer[..demo_p] == [version];
      PutSettings(h);
      PutPlayers(h);
      HeaderParts(version, h);
      vanilla, opening, taken := vanillaVersion, h, [];
      assert HeaderBytes(version, h) + Stream(taken, longtics) == HeaderBytes(version, h);
    }

    /** Twice the room, with everything up to the pointer and beyond carried over. */
    method IncreaseDemoBuffer()
      modifies this`demobuffer
      ensures fresh(demobuffer) && demobuffer.Length == 2 * old(demobuffer.Length)
      ensures forall i, j | 0 <= i <= j <= old(demobuffer.Length) :: demobuffer[i..j] == old(demobuffer[i..j])
    {
      var current_length := demobuffer.Length;
      var new_demobuffer := new Byte[current_length * 2];
      forall i | 0 <= i < current_length {
        new_demobuffer[i] := demobuffer[i];
      }
      demobuffer := new_demobuffer;
    }

    /** Ends playback, or ends the recording and the program with it. The result tells whether a
        demo was being played. */
    method CheckDemoStatus() returns (more: bool)
      requires exit == Running
      requires demorecording && !demoplayback ==> demo_p < demobuffer.Length
      modifies this, demobuffer
      ensures more == old(demoplayback)
      ensures unchanged(`demobuffer) && unchanged(`longtics)
      ensures unchanged(`vanilla) && unchanged(`opening) && unchanged(`taken)
      ensures old(demoplayback) ==>
        !demoplayback && unchanged(`demo_p) && unchanged(`demorecording) && unchanged(`exit) && unchanged(demobuffer)
      ensures !old(demoplayback) && old(demorecording) ==>
        !demorecording && exit == Exited(old(demobuffer[..demo_p]) + [DEMOMARKER])
      ensures old(Recording()) ==> exit == Exited(old(Finished()))
      ensures !old(demoplayback) && !old(demorecording) ==> unchanged(this) && unchanged(demobuffer)
    {
      if demoplayback {
        demoplayback := false;
        return true;
      }
      if demorecording {
        demobuffer[demo_p] := DEMOMARKER;
        demo_p := demo_p + 1;
        demorecording := false;
        exit := Exited(demobuffer[..demo_p]);
      }
      return false;
    }

    /** Reads one record over `cmd`, or ends the demo at the marker. */
    method ReadTiccmd(cmd: Ticcmd) returns (read: Ticcmd)
      requires exit == Running && demo_p < demobuffer.Length
      requires demobuffer[demo_p] != DEMOMARKER ==> demo_p + RecordSize(longtics) <= demobuffer.Length
      modifies this, demobuffer
      ensures unchanged(`demobuffer) && unchanged(`longtics)
      ensures unchanged(`vanilla) && unchanged(`opening) && unchanged(`taken)
      ensures old(demobuffer[demo_p]) != DEMOMARKER ==>
        && read == Decode(old(demobuffer[demo_p..]), cmd, longtics)
        && demo_p == old(demo_p) + RecordSize(longtics)
        && unchanged(`exit) && unchanged(`demorecording) && unchanged(`demoplayback) && unchanged(demobuffer)
      ensures old(demobuffer[demo_p]) == DEMOMARKER ==> read == cmd
      ensures old(demobuffer[demo_p]) == DEMOMARKER && old(demoplayback) ==>
        !demoplayback && unchanged(`exit) && unchanged(`demorecording) && unchanged(`demo_p) && unchanged(demobuffer)
      ensures old(demobuffer[demo_p]) == DEMOMARKER && !old(demoplayback) && old(demorecording) ==>
        exit == Exited(old(demobuffer[..demo_p]) + [DEMOMARKER])
    {
      read := cmd;
      if demobuffer[demo_p] == DEMOMARKER {
        var _ := CheckDemoStatus();
        return;
      }
      read := read.(forwardmove := ToSByte(demobuffer[demo_p]));
      demo_p := demo_p + 1;
      read := read.(sidemove := ToSByte(demobuffer[demo_p]));
      demo_p := demo_p + 1;
      if longtics {
        var low: int := demobuffer[demo_p];
        demo_p := demo_p + 1;
        var high: int := demobuffer[demo_p];
        demo_p := demo_p + 1;
        read := read.(angleturn := ToShort(low + 0x100 * high));
      } else {
        var high: int := demobuffer[demo_p];
        demo_p := demo_p + 1;
        read := read.(angleturn := ToShort(0x100 * high));
      }
      read := read.(buttons := demobuffer[demo_p]);
      demo_p := demo_p + 1;
    }

    /** The record at the pointer, which then moves back to where it was. */
    method PutRecord(cmd: Ticcmd)
      requires demo_p + 5 <= demobuffer.Length
      modifies `demo_p, demobuffer
      ensures unchanged(`demo_p)
      ensures demobuffer[0..demo_p] == old(demobuffer[..demo_p])
      ensures demobuffer[demo_p..demo_p + RecordSize(longtics)] == Encode(cmd, longtics)
    {
      hide ToByte;
      var demo_start := demo_p;
      Put(ToByte(cmd.forwardmove));
      Put(ToByte(cmd.sidemove));
      if longtics {
        Put(ToByte(cmd.angleturn));
        Put(ToByte(cmd.angleturn / 0x100));
      } else {
        Put(ToByte(cmd.angleturn / 0x100));
      }
      Put(ToByte(cmd.buttons));
      assert demobuffer[..demo_p] == old(demobuffer[..demo_p]) + Encode(cmd, longtics);
      assert demobuffer[demo_start..demo_p] == demobuffer[..demo_p][demo_start..];
      assert demobuffer[..demo_start] == demobuffer[..demo_p][..demo_start];
      demo_p := demo_start;
    }

    /** Records a command and reads it back. The program ends, with the file as it stood, when the
        quit key is down, when the vanilla limit is on and the buffer nearly full, or when the
        command's first byte is the end marker. */
    method WriteTiccmd(cmd: Ticcmd, quitKey: bool, vanillaDemoLimit: bool) returns (read: Ticcmd)
      requires Recording()
      modifies this, demobuffer
      ensures exit == Running <==>
        !quitKey && !(vanillaDemoLimit && old(demo_p) > old(demobuffer.Length) - 16) && cmd.forwardmove != -0x80
      ensures unchanged(`vanilla) && unchanged(`opening) && unchanged(`longtics)
      ensures demobuffer == old(demobuffer) || fresh(demobuffer)
      ensures exit == Running ==>
        Recording() && taken == old(taken) + [cmd] && read == AsRecorded(cmd, longtics)
      ensures exit != Running ==> exit == Exited(old(Finished()))
    {
      hide Encode, Decode, Stream, AsRecorded, HeaderBytes;
      read := cmd;
      if quitKey {
        var _ := CheckDemoStatus();
        return;
      }
      PutRecord(cmd);
      if demo_p > demobuffer.Length - 16 {
        if vanillaDemoLimit {
          var _ := CheckDemoStatus();
          return;
        } else {
          IncreaseDemoBuffer();
        }
      }
      RecordAt(demobuffer[..], demo_p, cmd, longtics);
      RecordExtends(demobuffer[..], demo_p, cmd, longtics, HeaderBytes(Version(longtics, vanilla), opening), taken);
      read := ReadTiccmd(cmd);
      if exit == Running {
        taken := taken + [cmd];
      }
    }

    /** Starts playing a demo lump. A version byte that is neither the running game's nor 1.91's
        is reported and leaves the record format as it was. */
    method DoPlayDemo(lump: array<Byte>, vanillaVersion: Byte) returns (h: Header)
      requires exit == Running && lump.Length >= HEADER_SIZE
      modifies this
      ensures demobuffer == lump && demo_p == HEADER_SIZE && demoplayback
      ensures unchanged(`exit) && unchanged(`demorecording)
      ensures h == ReadHeader(lump[..])
      ensures longtics == FormatOf(lump[0], vanillaVersion, old(longtics))
      ensures longtics == if lump[0] == vanillaVersion then false else if lump[0] == 111 then true else old(longtics)
    {
      demobuffer := lump;
      demo_p := 0;
      var demoversion := demobuffer[demo_p];
      demo_p := 1;
      if demoversion == vanillaVersion {
        longtics := false;
      } else if demoversion == DOOM_191_VERSION {
        longtics := true;
      }
      h := Header(demobuffer[1], demobuffer[2], demobuffer[3], demobuffer[4], demobuffer[5], demobuffer[6],
                  demobuffer[7], demobuffer[8], []);
      demo_p := 9;
      ghost var players := ReadHeader(lump[..]).playeringame;
      for i := 0 to MAXPLAYERS
        invariant demo_p == 9 + i
        invariant unchanged(`exit) && unchanged(`demorecording) && demobuffer == lump
        invariant longtics == FormatOf(lump[0], vanillaVersion, old(longtics))
        invariant h.(playeringame := []) == ReadHeader(lump[..]).(playeringame := [])
        invariant h.playeringame == players[..i]
      {
        assert players[..i + 1] == players[..i] + [players[i]] && players[i] == demobuffer[demo_p];
        h := h.(playeringame := h.playeringame + [demobuffer[demo_p]]);
        demo_p := demo_p + 1;
      }
      demoplayback := true;
    }

    /** Plays a demo lump to its end: each record is read over the matching live command. */
    method PlayDemo(lump: array<Byte>, vanillaVersion: Byte, live: seq<Ticcmd>)
      returns (h: Header, played: seq<Ticcmd>)
      requires exit == Running && lump.Length >= HEADER_SIZE
      requires Play(lump[HEADER_SIZE..], FormatOf(lump[0], vanillaVersion, longtics), live) != RanOff
      modifies this, lump
      ensures !demoplayback && unchanged(`exit) && lump[..] == old(lump[..])
      ensures longtics == FormatOf(lump[0], vanillaVersion, old(longtics)) && h == ReadHeader(lump[..])
      ensures Play(lump[HEADER_SIZE..], longtics, live) == Stopped(played)
    {
      hide Play, Decode, ReadHeader;
      h := DoPlayDemo(lump, vanillaVersion);
      played := [];
      var rest := live;
      ghost var data := lump[..];
      ghost var all := Play(data[HEADER_SIZE..], longtics, live);
      while demoplayback
        invariant unchanged(`exit) && lump[..] == data && demobuffer == lump && demo_p <= lump.Length
        invariant longtics == FormatOf(lump[0], vanillaVersion, old(longtics))
        invariant all == if demoplayback then After(played, Play(data[demo_p..], longtics, rest)) else Stopped(played)
        decreases lump.Length - demo_p, demoplayback
      {
        PlayNext(data[demo_p..], longtics, rest, played);
        var cmd := Next(rest);
        cmd := ReadTiccmd(cmd);
        if demoplayback {
          played := played + [cmd];
          rest := Rest(rest);
        }
      }
    }
  }

  /** Records commands into a new demo until the recorder ends it, or ends it after the last. The
      file holds the commands up to the first that starts with the marker byte, or up to the vanilla
      limit. */
  method RecordAll(cmds: seq<Ticcmd>, long: bool, vanillaVersion: Byte, h: Header, maxdemo: nat, limit: bool)
    returns (file: array<Byte>, recorded: seq<Ticcmd>)
    requires h.Valid() && maxdemo > 0
    ensures fresh(file) && |recorded| <= |cmds|
    ensures var taken := cmds[..|recorded|];
      && file[..] == FileOf(long, vanillaVersion, h, taken) && Markerless(taken)
      && forall i | 0 <= i < |taken| :: recorded[i] == AsRecorded(taken[i], long)
    ensures |recorded| < |cmds| && !limit ==> cmds[|recorded|].forwardmove == -0x80
  {
    hide FileOf, HeaderBytes, Stream, AsRecorded, Encode;
    var demo := new Demo.RecordDemo(maxdemo);
    demo.BeginRecording(long, vanillaVersion, h);
    recorded := [];
    while demo.exit == Running && |recorded| < |cmds|
      invariant fresh(demo) && fresh(demo.demobuffer) && |recorded| <= |cmds|
      invariant demo.longtics == long && demo.vanilla == vanillaVersion && demo.opening == h
      invariant demo.exit == Running ==> demo.Recording() && demo.taken == cmds[..|recorded|]
      invariant demo.exit != Running ==> demo.exit == Exited(FileOf(long, vanillaVersion, h, cmds[..|recorded|]))
      invariant Markerless(cmds[..|recorded|])
      invariant forall i | 0 <= i < |recorded| :: recorded[i] == AsRecorded(cmds[i], long)
      invariant demo.exit != Running && !limit ==>
        |recorded| < |cmds| && cmds[|recorded|].forwardmove == -0x80
      decreases |cmds| - |recorded|, demo.exit == Running
    {
      var read := demo.WriteTiccmd(cmds[|recorded|], false, limit);
      if demo.exit == Running {
        assert cmds[..|recorded| + 1] == cmds[..|recorded|] + [cmds[|recorded|]];
        recorded := recorded + [read];
      }
    }
    if demo.exit == Running {
      var _ := demo.CheckDemoStatus();
    }
    var bytes := demo.exit.file;
    file := new Byte[|bytes|](i requires 0 <= i < |bytes| => bytes[i]);
  }

  /** Recording a demo and playing its file back: the format and header are recovered, every command
      comes back as the recorder itself played it, over whatever live commands, and playback stops
      at the marker. */
  method RecordAndPlay(cmds: seq<Ticcmd>, long: bool, vanillaVersion: Byte, h: Header, maxdemo: nat, limit: bool,
                       live: seq<Ticcmd>)
    returns (header: Header, format: bool, recorded: seq<Ticcmd>, played: seq<Ticcmd>)
    requires h.Valid() && vanillaVersion != DOOM_191_VERSION && maxdemo > 0 && |live| >= |cmds|
    ensures |played| == |recorded| <= |cmds| && format == long
    ensures forall i | 0 <= i < |recorded| ::
      && cmds[i].forwardmove != -0x80
      && recorded[i] == AsRecorded(cmds[i], long) && played[i] == WithMoves(live[i], recorded[i])
    ensures |recorded| < |cmds| && !limit ==> cmds[|recorded|].forwardmove == -0x80
    ensures header == h <==> forall i | 0 <= i < HEADER_SIZE - 1 :: 0 <= h.Fields()[i] < 0x100
  {
    hide FileOf, ReadHeader, Play, FormatOf, AsRecorded, WithMoves, Header.Fields, Replayed;
    var file;
    file, recorded := RecordAll(cmds, long, vanillaVersion, h, maxdemo, limit);
    ghost var taken := cmds[..|recorded|];
    var player := new Demo();
    FilePlaysBack(long, vanillaVersion, player.longtics, h, taken, live);
    header, played := player.PlayDemo(file, vanillaVersion, live);
    format := player.longtics;
    assert played == Replayed(taken, long, live);
    assert forall i | 0 <= i < |recorded| :: taken[i] == cmds[i];
  }
}
