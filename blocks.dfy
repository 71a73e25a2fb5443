/// Both renderers write one block of text per activity, in order. The
/// joining of those blocks is defined here once, over any block function.
module Blocks {
  import opened Feed

  /** The blocks of `acts`, in order. */
  function Join(acts: seq<Activity>, block: Activity -> string): string
    decreases |acts|
  {
    if acts == [] then []
    else Join(acts[..|acts| - 1], block) + block(acts[|acts| - 1])
  }

  lemma Assoc(x: string, y: string, z: string)
    ensures (x + y) + z == x + (y + z)
  {
  }

  /** One more activity adds its block at the end; this is the step of the
      renderers' loops. */
  lemma JoinStep(acts: seq<Activity>, i: nat, block: Activity -> string, before: string)
    requires i < |acts|
    ensures before + Join(acts[..i], block) + block(acts[i]) == before + Join(acts[..i + 1], block)
  {
    assert acts[..i + 1][..i] == acts[..i];
    Assoc(before, Join(acts[..i], block), block(acts[i]));
  }

  /** The loops start from no block... */
  lemma JoinNone(acts: seq<Activity>, block: Activity -> string, before: string)
    ensures before + Join(acts[..0], block) == before
  {
    assert acts[..0] == [];
  }

  /** ...and end with the blocks of every activity. */
  lemma JoinWhole(acts: seq<Activity>, block: Activity -> string)
    ensures Join(acts[..|acts|], block) == Join(acts, block)
  {
    assert acts[..|acts|] == acts;
  }

  /** The blocks of `a + b` are those of `a`, then those of `b`. */
  lemma {:induction false} JoinAppend(a: seq<Activity>, b: seq<Activity>, block: Activity -> string)
    ensures Join(a + b, block) == Join(a, block) + Join(b, block)
    decreases |b|
  {
    if b == [] {
      assert a + b == a;
    } else {
      var b' := b[..|b| - 1];
      assert (a + b)[..|a + b| - 1] == a + b';
      assert (a + b)[|a + b| - 1] == b[|b| - 1];
      JoinAppend(a, b', block);
      Assoc(Join(a, block), Join(b', block), block(b[|b| - 1]));
    }
  }

  lemma EmptyConcat(y: string)
    ensures [] + y == y
  {
  }

  lemma JoinSingle(a: Activity, block: Activity -> string)
    ensures Join([a], block) == block(a)
  {
    assert [a][..0] == [];
    EmptyConcat(block(a));
  }

  /** The blocks of `x + [a] + y`: those of `x`, the block of `a`, those of `y`. */
  lemma JoinAround(acts: seq<Activity>, x: seq<Activity>, a: Activity, y: seq<Activity>, block: Activity -> string)
    requires acts == x + [a] + y
    ensures Join(acts, block) == Join(x, block) + block(a) + Join(y, block)
  {
    JoinAppend(x + [a], y, block);
    JoinAppend(x, [a], block);
    JoinSingle(a, block);
  }

  lemma SplitAt(acts: seq<Activity>, k: nat)
    requires k < |acts|
    ensures acts == acts[..k] + [acts[k]] + acts[k + 1..]
  {
  }

  /** There is one block per activity, in the order of the activities: the
      block of the `k`-th activity stands after those of the activities
      before it and before those of the activities after it. */
  lemma JoinInOrder(acts: seq<Activity>, k: nat, block: Activity -> string)
    requires k < |acts|
    ensures Join(acts, block) == Join(acts[..k], block) + block(acts[k]) + Join(acts[k + 1..], block)
  {
    SplitAt(acts, k);
    JoinAround(acts, acts[..k], acts[k], acts[k + 1..], block);
  }
}
