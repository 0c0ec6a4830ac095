/** The elementary (one-dimensional, three-cell neighbourhood) cellular
    automaton of plots/1dca.py: an 8-bit Wolfram rule code decoded bit by
    bit, a row stepped with a fixed zero border, and a history of
    generations scaled to 0/255 greyscale. */
module Elementary {
  import opened Bits
  import opened Pixels

  /** A Wolfram rule code, as accepted by the constructor. */
  type RuleCode = r: int | 0 <= r <= 255

  datatype SeedType = Random | Center | Left | Right

  datatype Error = InvalidRule

  datatype Result<T> = Ok(value: T) | Err(error: Error)

  /** An automaton as configured by its constructor. */
  datatype CA = CA(rule: RuleCode, width: nat, height: int, seedType: SeedType)

  /** The constructor: rejects a rule code outside 0..255 and stores the
      configuration unchanged otherwise. Width and height are not checked. */
  function NewCA(rule: int, width: nat, height: int, seedType: SeedType): (r: Result<CA>)
    ensures r.Err? <==> rule < 0 || rule > 255
    ensures r.Err? ==> r.error == InvalidRule
    ensures r.Ok? ==> r.value.rule == rule && r.value.width == width
                      && r.value.height == height && r.value.seedType == seedType
  {
    if rule < 0 || rule > 255 then Err(InvalidRule)
    else Ok(CA(rule, width, height, seedType))
  }

  /** The rule's transition table: entry `k` is the next state of a cell
      whose neighbourhood (left, centre, right) spells `k` in binary. */
  function Table(rule: RuleCode): (t: seq<Bit>)
    ensures |t| == 8
  {
    ToBits(rule, 8)
  }

  /** The neighbourhood index `4*left + 2*centre + right`. */
  function Pattern(left: Bit, center: Bit, right: Bit): (k: nat)
    ensures k < 8
  {
    left * 4 + center * 2 + right
  }

  /** One application of the rule: `(rule >> (4l + 2c + r)) & 1`. */
  function ApplyRule(rule: RuleCode, left: Bit, center: Bit, right: Bit): (b: Bit)
    ensures b == Table(rule)[Pattern(left, center, right)]
  {
    ShiftReadsDigit(rule, Pattern(left, center, right), 8);
    ShiftRight(rule, Pattern(left, center, right)) % 2
  }

  /** The rule code is recovered from its transition table. */
  lemma TableRoundTrip(rule: RuleCode)
    ensures FromBits(Table(rule)) == rule
  {
    assert Pow2(8) == 256;
    FromToBits(rule, 8);
  }

  /** Every 8-entry table is the table of exactly one rule code. */
  lemma TableOfCode(t: seq<Bit>)
    requires |t| == 8
    ensures FromBits(t) <= 255
    ensures Table(FromBits(t)) == t
  {
    FromBitsBound(t);
    assert Pow2(8) == 256;
    ToFromBits(t);
  }

  /** Two rule codes that act alike on all eight neighbourhoods are equal. */
  lemma RuleDeterminedByBehaviour(a: RuleCode, b: RuleCode)
    requires forall l: Bit, c: Bit, r: Bit :: ApplyRule(a, l, c, r) == ApplyRule(b, l, c, r)
    ensures a == b
  {
    forall k | 0 <= k < 8
      ensures Table(a)[k] == Table(b)[k]
    {
      var l: Bit, c: Bit, r: Bit := k / 4, (k / 2) % 2, k % 2;
      assert Pattern(l, c, r) == k;
      assert ApplyRule(a, l, c, r) == ApplyRule(b, l, c, r);
    }
    assert Table(a) == Table(b);
    TableRoundTrip(a);
    TableRoundTrip(b);
  }

  /** Rule 0 kills every neighbourhood; rule 255 makes every one live. */
  lemma ExtremeRules(l: Bit, c: Bit, r: Bit)
    ensures ApplyRule(0, l, c, r) == 0
    ensures ApplyRule(255, l, c, r) == 1
  {
    ZeroDigits(8);
    assert Pow2(8) - 1 == 255;
    OnesDigits(255, 8);
  }

  /** The initial row, before greyscale scaling. A RANDOM seed draws cell
      `i` from `coins(i)`; the others are a single live cell. */
  function InitSeed(width: nat, seedType: SeedType, coins: nat -> Bit): (seed: seq<Bit>)
    requires seedType != Random ==> width >= 1
    ensures |seed| == width
    ensures seedType == Random ==> forall i :: 0 <= i < width ==> seed[i] == coins(i)
    ensures seedType == Center ==> forall i :: 0 <= i < width ==> (seed[i] == 1 <==> i == width / 2)
    ensures seedType == Left ==> forall i :: 0 <= i < width ==> (seed[i] == 1 <==> i == 0)
    ensures seedType == Right ==> forall i :: 0 <= i < width ==> (seed[i] == 1 <==> i == width - 1)
  {
    var zeros := seq(width, _ => 0);
    match seedType
    case Random => seq(width, i requires 0 <= i => coins(i))
    case Center => zeros[width / 2 := 1]
    case Left => zeros[0 := 1]
    case Right => zeros[width - 1 := 1]
  }

  /** The row with one dead cell added at each end. */
  function Padded(row: seq<Bit>): (p: seq<Bit>)
    ensures |p| == |row| + 2
  {
    [0] + row + [0]
  }

  /** Cells `i` up to the last but one, each from its three neighbours. */
  function Interior(rule: RuleCode, row: seq<Bit>, i: nat): (cells: seq<Bit>)
    requires 1 <= i <= |row| - 1
    ensures |cells| == |row| - 1 - i
    ensures forall k :: 0 <= k < |cells| ==>
              cells[k] == ApplyRule(rule, row[i + k - 1], row[i + k], row[i + k + 1])
    decreases |row| - i
  {
    if i == |row| - 1 then []
    else [ApplyRule(rule, row[i - 1], row[i], row[i + 1])] + Interior(rule, row, i + 1)
  }

  /** The reference next state of cell `i`: the rule applied to the window
      of three cells around it in the zero-padded row. */
  function Successor(rule: RuleCode, row: seq<Bit>, i: nat): Bit
    requires i < |row|
  {
    var p := Padded(row);
    ApplyRule(rule, p[i], p[i + 1], p[i + 2])
  }

  /** One generation: the first cell with a dead left neighbour, the
      interior cells, and the last cell with a dead right neighbour. Each
      output cell reads the window of three around it in the zero-padded
      input row and nothing else. */
  function NextRow(rule: RuleCode, row: seq<Bit>): (next: seq<Bit>)
    requires |row| >= 2
    ensures |next| == |row|
    ensures forall i :: 0 <= i < |row| ==> next[i] == Successor(rule, row, i)
  {
    AssembledRow(rule, row);
    [ApplyRule(rule, 0, row[0], row[1])] + Interior(rule, row, 1) + [ApplyRule(rule, row[|row| - 2], row[|row| - 1], 0)]
  }

  /** The three parts `NextRow` joins are, cell by cell, the reference successors. */
  lemma AssembledRow(rule: RuleCode, row: seq<Bit>)
    requires |row| >= 2
    ensures var next := [ApplyRule(rule, 0, row[0], row[1])] + Interior(rule, row, 1)
                        + [ApplyRule(rule, row[|row| - 2], row[|row| - 1], 0)];
            forall i :: 0 <= i < |row| ==> next[i] == Successor(rule, row, i)
  {
    var n := |row|;
    var middle := Interior(rule, row, 1);
    var next := [ApplyRule(rule, 0, row[0], row[1])] + middle + [ApplyRule(rule, row[n - 2], row[n - 1], 0)];
    var p := Padded(row);
    forall i | 0 <= i < n
      ensures next[i] == Successor(rule, row, i)
    {
      assert p[i + 1] == row[i];
      if i == 0 {
        assert p[0] == 0 && p[2] == row[1];
      } else if i == n - 1 {
        assert p[i] == row[n - 2] && p[i + 2] == 0;
      } else {
        assert next[i] == middle[i - 1];
        assert p[i] == row[i - 1] && p[i + 2] == row[i + 1];
      }
    }
  }

  /** Output cell `i` depends only on input cells `i-1`, `i`, `i+1`. */
  lemma NextRowLocal(rule: RuleCode, a: seq<Bit>, b: seq<Bit>, i: nat)
    requires |a| == |b| >= 2 && i < |a|
    requires forall j :: i - 1 <= j <= i + 1 && 0 <= j < |a| ==> a[j] == b[j]
    ensures NextRow(rule, a)[i] == NextRow(rule, b)[i]
  {
    assert Successor(rule, a, i) == Successor(rule, b, i) by {
      assert Padded(a)[i] == Padded(b)[i];
      assert Padded(a)[i + 1] == Padded(b)[i + 1];
      assert Padded(a)[i + 2] == Padded(b)[i + 2];
    }
  }

  /** Under rule 0 every row dies; under rule 255 every row becomes live. */
  lemma NextRowExtremeRules(row: seq<Bit>)
    requires |row| >= 2
    ensures forall i :: 0 <= i < |row| ==> NextRow(0, row)[i] == 0
    ensures forall i :: 0 <= i < |row| ==> NextRow(255, row)[i] == 1
  {
    forall i | 0 <= i < |row|
      ensures NextRow(0, row)[i] == 0 && NextRow(255, row)[i] == 1
    {
      var p := Padded(row);
      ExtremeRules(p[i], p[i + 1], p[i + 2]);
    }
  }

  /** The first `count` generations, unscaled, starting from `seed`. */
  function History(rule: RuleCode, seed: seq<Bit>, count: nat): (rows: seq<seq<Bit>>)
    requires count >= 1
    requires count >= 2 ==> |seed| >= 2
    ensures |rows| == count
    ensures rows[0] == seed
    ensures forall k :: 0 <= k < count ==> |rows[k]| == |seed|
    ensures forall k :: 0 <= k < count - 1 ==> rows[k + 1] == NextRow(rule, rows[k])
  {
    if count == 1 then [seed]
    else
      var earlier := History(rule, seed, count - 1);
      earlier + [NextRow(rule, earlier[count - 2])]
  }

  /** A row of cells as greyscale intensities: dead 0, live 255. */
  function Scaled(row: seq<Bit>): (pixels: seq<int>)
    ensures |pixels| == |row|
    ensures forall j :: 0 <= j < |row| ==> pixels[j] == row[j] * Greyscale
  {
    if |row| == 0 then [] else [row[0] * Greyscale] + Scaled(row[1..])
  }

  /** A greyscale row read back as cells. */
  function Unscaled(pixels: seq<int>): (row: seq<Bit>)
    ensures |row| == |pixels|
  {
    seq(|pixels|, j requires 0 <= j < |pixels| => if pixels[j] == 0 then 0 else 1)
  }

  lemma ScaledRoundTrip(row: seq<Bit>)
    ensures Unscaled(Scaled(row)) == row
  {
  }

  /** The number of generations `generate` produces: the seed, then one
      more row per step of a `height - 1` step loop that runs zero times
      when `height` is below 2. */
  function RowCount(height: int): (n: nat)
    ensures n >= 1
  {
    if height < 1 then 1 else height
  }

  /** What `generate` returns (and stores): the history, scaled to 0/255.
      It has at least one row, every row is `width` wide, and every pixel
      is 0 or 255. */
  function Generate(ca: CA, coins: nat -> Bit): (data: seq<seq<int>>)
    requires ca.seedType != Random ==> ca.width >= 1
    requires ca.height >= 2 ==> ca.width >= 2
    ensures |data| == (if ca.height < 1 then 1 else ca.height)
    ensures forall k :: 0 <= k < |data| ==> |data[k]| == ca.width
    ensures forall k, j :: 0 <= k < |data| && 0 <= j < |data[k]| ==> data[k][j] == 0 || data[k][j] == 255
  {
    ScaledAll(History(ca.rule, InitSeed(ca.width, ca.seedType, coins), RowCount(ca.height)))
  }

  /** Every row of a history scaled to greyscale. */
  function ScaledAll(rows: seq<seq<Bit>>): (data: seq<seq<int>>)
    ensures |data| == |rows|
    ensures forall k :: 0 <= k < |rows| ==> data[k] == Scaled(rows[k])
  {
    if |rows| == 0 then [] else [Scaled(rows[0])] + ScaledAll(rows[1..])
  }

  /** Row 0 of the image is the scaled seed; each later row is the scaled
      successor of the cells the row above it shows. */
  lemma GenerateRows(ca: CA, coins: nat -> Bit)
    requires ca.seedType != Random ==> ca.width >= 1
    requires ca.height >= 2 ==> ca.width >= 2
    ensures Generate(ca, coins)[0] == Scaled(InitSeed(ca.width, ca.seedType, coins))
    ensures forall k :: 0 <= k < |Generate(ca, coins)| - 1 ==>
              Generate(ca, coins)[k + 1] == Scaled(NextRow(ca.rule, Unscaled(Generate(ca, coins)[k])))
  {
    var data := Generate(ca, coins);
    var rows := History(ca.rule, InitSeed(ca.width, ca.seedType, coins), RowCount(ca.height));
    forall k | 0 <= k < |data| - 1
      ensures data[k + 1] == Scaled(NextRow(ca.rule, Unscaled(data[k])))
    {
      assert data[k] == Scaled(rows[k]);
      ScaledRoundTrip(rows[k]);
      assert rows[k + 1] == NextRow(ca.rule, rows[k]);
      assert data[k + 1] == Scaled(rows[k + 1]);
    }
  }
}
