/**
 The destructible terrain tile of the game: a 100 by 100 block whose
 geometry is fixed when it is placed, with an integer health that hits
 wear down and a flag that goes false, once and for good, when the health
 drops below 1.

 The Java class is mutable; here a block is an immutable value and
 `ReduceHealth` returns the block as it is after the call. Coordinates and
 health are Java `int`s, so the additions in the constructor and the
 subtraction in `reduceHealth` wrap around exactly as the JVM does.
 */
module Blocks {
  import opened JavaInt

  /** Width and height of every block, in game units. */
  const XPixels: int := 100
  const YPixels: int := 100

  /** The health a block is placed with. */
  const InitialHealth: int := 6

  datatype Block = Block(
    locX: Int32, locY: Int32,
    centerX: Int32, centerY: Int32,
    endX: Int32, endY: Int32,
    health: Int32,
    isAlive: bool)

  /** Centre and end are the ones the constructor derives from the origin. */
  predicate GeometryDerived(b: Block)
  {
    && b.endX == Wrap32(b.locX + XPixels)
    && b.endY == Wrap32(b.locY + YPixels)
    && b.centerX == Wrap32(b.locX + XPixels / 2)
    && b.centerY == Wrap32(b.locY + YPixels / 2)
  }

  /** Two blocks occupy the same place: origin, centre and end all agree. */
  predicate SameGeometry(a: Block, b: Block)
  {
    && a.locX == b.locX && a.locY == b.locY
    && a.centerX == b.centerX && a.centerY == b.centerY
    && a.endX == b.endX && a.endY == b.endY
  }

  /** The block placed with its top-left corner at (locX, locY). */
  function NewBlock(locX: Int32, locY: Int32): (b: Block)
    ensures b.locX == locX && b.locY == locY
    ensures GeometryDerived(b)
    ensures locX <= INT_MAX - XPixels ==> b.endX == locX + 100 && b.centerX == locX + 50
    ensures locY <= INT_MAX - YPixels ==> b.endY == locY + 100 && b.centerY == locY + 50
    ensures b.isAlive && b.health == 6
  {
    Block(locX, locY,
          Wrap32(locX + XPixels / 2), Wrap32(locY + YPixels / 2),
          Wrap32(locX + XPixels), Wrap32(locY + YPixels),
          InitialHealth, true)
  }

  /** The width getter: the extent by which the end and centre lie past the origin. */
  function GetXPixels(b: Block): (r: int)
    ensures r == 100
    ensures GeometryDerived(b) ==> b.endX == Wrap32(b.locX + r) && b.centerX == Wrap32(b.locX + r / 2)
  {
    XPixels
  }

  /** The height getter: the extent by which the end and centre lie below the origin. */
  function GetYPixels(b: Block): (r: int)
    ensures r == 100
    ensures GeometryDerived(b) ==> b.endY == Wrap32(b.locY + r) && b.centerY == Wrap32(b.locY + r / 2)
  {
    YPixels
  }

  /**
   A hit of `reduce` points. The health drops by exactly that much, without
   clamping at zero, and the block dies when the health ends up below 1. A
   dead block never comes back, whatever the amount; nothing but the health
   and the flag changes.
   */
  function ReduceHealth(b: Block, reduce: Int32): (r: Block)
    ensures INT_MIN <= b.health - reduce <= INT_MAX ==> r.health == b.health - reduce
    ensures r.health == Wrap32(b.health - reduce)
    ensures r.health < 1 ==> !r.isAlive
    ensures !b.isAlive ==> !r.isAlive
    ensures r.isAlive <==> b.isAlive && r.health >= 1
    ensures SameGeometry(r, b)
  {
    var h := Wrap32(b.health - reduce);
    b.(health := h, isAlive := if h < 1 then false else b.isAlive)
  }

  /** The block after the hits `hits`, in order. */
  function ApplyHits(b: Block, hits: seq<Int32>): (r: Block)
    ensures SameGeometry(r, b)
    ensures !b.isAlive ==> !r.isAlive
    decreases |hits|
  {
    if |hits| == 0 then b else ApplyHits(ReduceHealth(b, hits[0]), hits[1..])
  }

  /** Total damage of a sequence of hits, as an exact integer. */
  function Sum(hits: seq<Int32>): int
  {
    if |hits| == 0 then 0 else hits[0] + Sum(hits[1..])
  }

  predicate NonNegative(hits: seq<Int32>)
  {
    forall i :: 0 <= i < |hits| ==> hits[i] >= 0
  }

  lemma {:induction false} SumNonNegative(hits: seq<Int32>)
    requires NonNegative(hits)
    ensures Sum(hits) >= 0
  {
    if |hits| > 0 {
      SumNonNegative(hits[1..]);
    }
  }

  /** A block whose flag agrees with its health, as every block does until it dies. */
  predicate Consistent(b: Block)
  {
    b.isAlive <==> b.health >= 1
  }

  /**
   From a consistent block, non-negative hits kill it exactly when the total
   damage reaches its health; while it lives no subtraction overflows, so its
   health is the exact difference.
   */
  lemma {:induction false} AliveAfterHits(b: Block, hits: seq<Int32>)
    requires Consistent(b)
    requires NonNegative(hits)
    ensures ApplyHits(b, hits).isAlive <==> b.health - Sum(hits) >= 1
    ensures ApplyHits(b, hits).isAlive ==> ApplyHits(b, hits).health == b.health - Sum(hits)
    decreases |hits|
  {
    if |hits| == 0 {
    } else if !b.isAlive {
      SumNonNegative(hits);
    } else {
      var b' := ReduceHealth(b, hits[0]);
      assert b'.health == b.health - hits[0];
      assert NonNegative(hits[1..]) by {
        forall i | 0 <= i < |hits[1..]| ensures hits[1..][i] >= 0 {
          assert hits[1..][i] == hits[i + 1];
        }
      }
      AliveAfterHits(b', hits[1..]);
    }
  }

  /**
   A freshly placed block survives a sequence of non-negative hits exactly
   when they add up to at most 5, and then has 6 minus their sum left.
   */
  lemma FreshBlockAliveIffDamageAtMostFive(locX: Int32, locY: Int32, hits: seq<Int32>)
    requires NonNegative(hits)
    ensures ApplyHits(NewBlock(locX, locY), hits).isAlive <==> Sum(hits) <= 5
    ensures ApplyHits(NewBlock(locX, locY), hits).isAlive ==>
              ApplyHits(NewBlock(locX, locY), hits).health == 6 - Sum(hits)
  {
    AliveAfterHits(NewBlock(locX, locY), hits);
  }

  /**
   A live block has health left. Every block the constructor and
   `ReduceHealth` produce satisfies this, including a dead block whose health
   a negative amount raised back above 0.
   */
  predicate LiveHasHealth(b: Block)
  {
    b.isAlive ==> b.health >= 1
  }

  /** Hits of zero leave every block with a live-has-health flag exactly as it was. */
  lemma {:induction false} ZeroHitsChangeNothing(b: Block, hits: seq<Int32>)
    requires LiveHasHealth(b)
    requires forall i :: 0 <= i < |hits| ==> hits[i] == 0
    ensures ApplyHits(b, hits) == b
    decreases |hits|
  {
    if |hits| > 0 {
      assert ReduceHealth(b, hits[0]) == b;
      ZeroHitsChangeNothing(b, hits[1..]);
    }
  }

  /** A negative amount raises the health of a dead block above 0, but it stays dead. */
  lemma NegativeHitDoesNotRevive()
    ensures ReduceHealth(ReduceHealth(NewBlock(0, 0), 6), -10).health == 10
    ensures !ReduceHealth(ReduceHealth(NewBlock(0, 0), 6), -10).isAlive
  {
  }

  /** A block at (200, 300) hit twice for 3 is dead, with its geometry untouched. */
  lemma TwoHitsOfThree()
    ensures var b := ReduceHealth(ReduceHealth(NewBlock(200, 300), 3), 3);
      && !b.isAlive && b.health == 0
      && b.centerX == 250 && b.centerY == 350
      && b.endX == 300 && b.endY == 400
  {
  }
}
