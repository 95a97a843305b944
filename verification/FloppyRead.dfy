/** The floppy multi-track read (fdc_read_data and the addressing in fdc_issue_cmd of cmd_fdc.c). */
module FloppyRead {
  import opened Common
  import opened Arithmetic

  /** The part of `FD_GEO_STRUCT` that addressing needs; the registers are bytes. */
  datatype Geometry = Geometry(sect: nat, heads: nat)

  predicate ValidGeometry(g: Geometry) {
    0 < g.sect < 256 && 0 < g.heads <= 256
  }

  /** What is written to the controller's address registers. */
  datatype Address = Address(track: byte, head: byte, sector: byte)

  function Registers(g: Geometry, block: nat): Address
    requires ValidGeometry(g)
  {
    var track, rest := block / (g.sect * g.heads), block % (g.sect * g.heads);
    Address(track % 256, rest / g.sect % 256, (rest % g.sect + 1) % 256)
  }

  /** The block a disk address stands for. */
  function BlockOf(g: Geometry, a: Address): int {
    (a.track * g.heads + a.head) * g.sect + a.sector - 1
  }

  /** The first block behind the tracks that a byte can number. */
  function Limit(g: Geometry): nat {
    256 * (g.sect * g.heads)
  }

  lemma TrackLength(g: Geometry)
    requires ValidGeometry(g)
    ensures g.sect * g.heads > 0
  {
  }

  lemma Recompose(track: nat, head: nat, sector: nat, sect: nat, heads: nat)
    ensures (track * heads + head) * sect + sector == track * (sect * heads) + (head * sect + sector)
  {
    assert (track * heads + head) * sect == track * heads * sect + head * sect;
    assert track * heads * sect == track * (sect * heads);
  }

  /** The same place on another track is another block. */
  lemma TracksDiffer(t: nat, u: nat, length: nat, rest: nat)
    requires length > 0 && t != u
    ensures t * length + rest != u * length + rest
  {
    if t < u {
      AtLeast(u - t, length);
      MulDiff(u, t, length);
    } else {
      AtLeast(t - u, length);
      MulDiff(t, u, length);
    }
  }

  lemma Decompose(g: Geometry, block: nat) returns (track: nat, head: nat, sector: nat)
    requires ValidGeometry(g)
    ensures head < g.heads && sector < g.sect
    ensures Registers(g, block) == Address(track % 256, head, sector + 1)
    ensures block == track * (g.sect * g.heads) + (head * g.sect + sector)
    ensures track < 256 <==> block < Limit(g)
  {
    var length := g.sect * g.heads;
    TrackLength(g);
    track := block / length;
    DivMod(block, length);
    QuotientBelow(block, length, 256);
    head, sector := OnTrackAt(block % length, g.sect, g.heads);
  }

  lemma OnTrackAt(rest: nat, sect: nat, heads: nat) returns (head: nat, sector: nat)
    requires sect > 0 && rest < sect * heads
    ensures head == rest / sect < heads && sector == rest % sect < sect && rest == head * sect + sector
  {
    head, sector := rest / sect, rest % sect;
    DivMod(rest, sect);
    QuotientBelow(rest, sect, heads);
  }

  lemma BlockAt(g: Geometry, track: nat, head: nat, sector: nat)
    requires ValidGeometry(g) && head < g.heads && sector < g.sect
    ensures BlockOf(g, Address(track % 256, head, sector + 1))
         == track % 256 * (g.sect * g.heads) + (head * g.sect + sector)
  {
    Recompose(track % 256, head, sector, g.sect, g.heads);
  }

  /** The registers determine the block exactly when its track fits a byte. */
  lemma {:induction false} RegistersInvert(g: Geometry, block: nat)
    requires ValidGeometry(g)
    ensures var a := Registers(g, block);
            && a.head < g.heads && 1 <= a.sector <= g.sect
            && ((a.track * g.heads + a.head) * g.sect + (a.sector - 1) == block <==> block < 256 * (g.sect * g.heads))
  {
    TrackLength(g);
    var track, head, sector := Decompose(g, block);
    BlockAt(g, track, head, sector);
    SameTrackIff(track, track % 256, g.sect * g.heads, head * g.sect + sector);
    assert track < 256 <==> track % 256 == track;
  }

  lemma SameTrackIff(t: nat, u: nat, length: nat, rest: nat)
    requires length > 0
    ensures u * length + rest == t * length + rest <==> t == u
  {
    if t != u {
      TracksDiffer(t, u, length, rest);
    }
  }

  // ---- the commands

  /** One read command: consecutive blocks from `first` on. */
  datatype Command = Command(first: nat, count: nat)

  /** The commands for blocks that start a head-track. */
  function WholeTracks(sect: nat, first: nat, blocks: nat): (cs: seq<Command>)
    requires sect > 0
    decreases blocks
  {
    if blocks == 0 then []
    else
      var n := Min(sect, blocks);
      [Command(first, n)] + WholeTracks(sect, first + n, blocks - n)
  }

  /** The commands of a read: to the end of the first head-track, then a head-track each. */
  function Plan(sect: nat, first: nat, blocks: nat): (cs: seq<Command>)
    requires sect > 0
    ensures cs != []
  {
    var n := Min(sect - first % sect, blocks);
    [Command(first, n)] + WholeTracks(sect, first + n, blocks - n)
  }

  /** Commands that read the blocks from `first` to `last`, each once and in order. */
  predicate Tiles(cs: seq<Command>, first: nat, last: nat) {
    if cs == [] then first == last else cs[0].first == first && Tiles(cs[1..], first + cs[0].count, last)
  }

  /** A command that stays on a head-track. */
  predicate OnTrack(c: Command, sect: nat)
    requires sect > 0
  {
    c.first % sect + c.count <= sect
  }

  lemma NextTrack(x: nat, sect: nat)
    requires sect > 0 && x % sect == 0
    ensures (x + sect) % sect == 0
  {
    DivMod(x, sect);
    var q := x / sect;
    assert x + sect == (q + 1) * sect + 0;
    Remainder(q + 1, 0, sect);
  }

  lemma TrackEnd(x: nat, sect: nat)
    requires sect > 0
    ensures (x + (sect - x % sect)) % sect == 0
  {
    DivMod(x, sect);
    var q := x / sect;
    assert x + (sect - x % sect) == (q + 1) * sect + 0;
    Remainder(q + 1, 0, sect);
  }

  lemma {:induction false} WholeTracksTile(sect: nat, first: nat, blocks: nat)
    requires sect > 0 && (blocks > 0 ==> first % sect == 0)
    ensures var cs := WholeTracks(sect, first, blocks);
            && Tiles(cs, first, first + blocks)
            && forall k :: 0 <= k < |cs| ==> cs[k].count > 0 && OnTrack(cs[k], sect)
    decreases blocks
  {
    if blocks > 0 {
      var n := Min(sect, blocks);
      if n == sect {
        NextTrack(first, sect);
      }
      WholeTracksTile(sect, first + n, blocks - n);
    }
  }

  /** Every command but the last goes on to the end of its head-track. */
  predicate FillTracks(cs: seq<Command>, sect: nat)
    requires sect > 0
  {
    forall k :: 0 <= k < |cs| - 1 ==> (cs[k].first + cs[k].count) % sect == 0
  }

  lemma {:induction false} WholeTracksFill(sect: nat, first: nat, blocks: nat)
    requires sect > 0 && (blocks > 0 ==> first % sect == 0)
    ensures FillTracks(WholeTracks(sect, first, blocks), sect)
    decreases blocks
  {
    if blocks > sect {
      NextTrack(first, sect);
      WholeTracksFill(sect, first + sect, blocks - sect);
    }
  }

  /** No command stops in front of the end of its head-track while blocks are left behind it, so that the plan has as few
      commands as it can. */
  lemma PlanFills(sect: nat, first: nat, blocks: nat)
    requires sect > 0
    ensures FillTracks(Plan(sect, first, blocks), sect)
  {
    var n := Min(sect - first % sect, blocks);
    TrackEnd(first, sect);
    WholeTracksFill(sect, first + n, blocks - n);
  }

  /** The commands of a read tile it in order and never cross a head-track. */
  lemma PlanTiles(sect: nat, first: nat, blocks: nat)
    requires sect > 0
    ensures var cs := Plan(sect, first, blocks);
            && Tiles(cs, first, first + blocks)
            && (forall k :: 0 <= k < |cs| ==> OnTrack(cs[k], sect) && (blocks > 0 ==> cs[k].count > 0))
  {
    var n := Min(sect - first % sect, blocks);
    TrackEnd(first, sect);
    WholeTracksTile(sect, first + n, blocks - n);
  }
}
