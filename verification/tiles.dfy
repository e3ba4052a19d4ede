/** Numbered tiles (tile.py): the numbers a tile may carry and the pairwise merge rule. */
module Tiles {
  import opened Options

  /** The largest number a tile reaches; a tile at this number is never doubled. */
  const MaxNumber: nat := 2048

  /** The keys of the colour table of utils.py: one entry per reachable tile number. */
  const ColorKeys: set<nat> := {2, 4, 8, 16, 32, 64, 128, 256, 512, 1024, 2048}

  /** n is a power of two between 2 and MaxNumber. */
  predicate IsTileNumber(n: nat)
    decreases n
  {
    n == 2 || (2 < n <= MaxNumber && n % 2 == 0 && IsTileNumber(n / 2))
  }

  /** The reachable tile numbers are exactly the keys of the colour table, so the colour
      lookup made whenever a tile's number changes always finds an entry. */
  lemma {:induction false} TileNumbersAreColorKeys(n: nat)
    ensures IsTileNumber(n) <==> n in ColorKeys
  {
    if n in ColorKeys {
      assert IsTileNumber(2);
      assert IsTileNumber(4);
      assert IsTileNumber(8);
      assert IsTileNumber(16);
      assert IsTileNumber(32);
      assert IsTileNumber(64);
      assert IsTileNumber(128);
      assert IsTileNumber(256);
      assert IsTileNumber(512);
      assert IsTileNumber(1024);
      assert IsTileNumber(2048);
    }
    if IsTileNumber(n) && n != 2 {
      TileNumbersAreColorKeys(n / 2);
    }
  }

  /** The number of a freshly created tile: the constructor picks index `pick` of [2, 4]
      at random; the random choice is a parameter here. */
  function SpawnNumber(pick: nat): (n: nat)
    requires pick < 2
    ensures IsTileNumber(n) && n <= 4
  {
    [2, 4][pick]
  }

  /** What `merge_matches` leaves behind: the calling tile's number, the partner's number
      (None once the partner has been absorbed) and the value returned. */
  datatype MergeOutcome = MergeOutcome(lower: nat, upper: Option<nat>, gained: nat)

  /** `number.merge_matches(partner)`: equal numbers below MaxNumber combine into the
      calling tile, which returns its new number; anything else changes nothing and
      returns 0. */
  function MergeMatches(number: nat, partner: nat): (r: MergeOutcome)
    ensures r.upper.None? <==> number == partner && number < MaxNumber
    ensures r.upper.None? ==> r.lower == number + partner && r.gained == r.lower
    ensures r.upper.Some? ==> r.lower == number && r.upper == Some(partner) && r.gained == 0
    ensures IsTileNumber(number) && IsTileNumber(partner) ==> IsTileNumber(r.lower)
  {
    if number == partner && number < MaxNumber then
      DoubledTileNumber(number);
      MergeOutcome(number * 2, None, number * 2)
    else
      MergeOutcome(number, Some(partner), 0)
  }

  /** Doubling a tile number below the cap gives a tile number. */
  lemma DoubledTileNumber(n: nat)
    requires n < MaxNumber
    ensures IsTileNumber(n) ==> IsTileNumber(2 * n)
  {
    if IsTileNumber(n) {
      TileNumbersAreColorKeys(n);
      TileNumbersAreColorKeys(2 * n);
    }
  }
}
