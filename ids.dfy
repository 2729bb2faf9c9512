/** Sets of row ids: the ids a list names, the ids handed out in a range,
    and the split of a set of ids at a value of the id counter. */
module IdSets {
  import opened Models

  function Elements(xs: seq<Id>): (s: set<Id>)
    ensures forall x :: x in s <==> x in xs
  {
    set x | x in xs
  }

  lemma ElementsSnoc(xs: seq<Id>, x: Id)
    ensures Elements(xs + [x]) == Elements(xs) + {x}
  {
  }

  /** The ids handed out from `from` up to `to`. */
  function IdRange(from: nat, to: nat): (s: set<Id>)
    decreases to
    ensures forall k :: k in s <==> from <= k < to
  {
    if to <= from then {} else IdRange(from, to - 1) + {to - 1}
  }

  /** The ids of `s` below `n`: rows that existed before ids from `n` on were handed out. */
  function Older(s: set<Id>, n: nat): (r: set<Id>)
    ensures forall p :: p in r <==> p in s && p < n
  {
    set p | p in s && p < n
  }

  /** The ids of `s` from `n` on: rows created after `n` was the next id. */
  function Newer(s: set<Id>, n: nat): (r: set<Id>)
    ensures forall p :: p in r <==> p in s && n <= p
  {
    set p | p in s && n <= p
  }

  lemma {:induction false} IdRangeSize(from: nat, to: nat)
    requires from <= to
    ensures |IdRange(from, to)| == to - from
  {
    if from < to {
      var below := IdRange(from, to - 1);
      IdRangeSize(from, to - 1);
      assert to - 1 !in below;
      assert |below + {to - 1}| == |below| + 1;
    }
  }
}
