/**
 * The parsed translation unit as the checker sees it: a tree of entities,
 * each with a kind, a name, the two flags the checker tests, and its children
 * in declaration order.
 */
module Entities {

  /** The entity kinds the checker distinguishes; every other kind is `Other`. */
  datatype EntityKind = File | Namespace | Function | MemberFunction | Other

  datatype Entity = Entity(
    kind: EntityKind,
    name: string,
    templated: bool,
    friended: bool,
    children: seq<Entity>)

  /** The entities of the tree rooted at `e`, parent before children, siblings in declaration order. */
  function PreOrder(e: Entity): (r: seq<Entity>)
    ensures |r| > 0 && r[0] == e
    decreases e, 1
  {
    [e] + PreOrderForest(e.children)
  }

  /** The pre-order walks of the trees in `es`, one after the other. */
  function PreOrderForest(es: seq<Entity>): seq<Entity>
    decreases es, 0
  {
    if es == [] then [] else PreOrder(es[0]) + PreOrderForest(es[1..])
  }

  /** Walking two forests one after the other is walking their concatenation. */
  lemma {:induction false} PreOrderForestAppend(a: seq<Entity>, b: seq<Entity>)
    ensures PreOrderForest(a + b) == PreOrderForest(a) + PreOrderForest(b)
    decreases |a|
  {
    if a == [] {
      assert a + b == b;
    } else {
      assert (a + b)[0] == a[0];
      assert (a + b)[1..] == a[1..] + b;
      PreOrderForestAppend(a[1..], b);
    }
  }

  /**
   * One step of the walk over a pending forest: its first tree's root comes
   * first, then its children, then the rest of the forest.
   */
  lemma PreOrderForestStep(pending: seq<Entity>)
    requires pending != []
    ensures PreOrderForest(pending)
         == [pending[0]] + PreOrderForest(pending[0].children + pending[1..])
  {
    PreOrderForestAppend(pending[0].children, pending[1..]);
  }

  /** Every entity of any tree in a forest is visited by the forest's walk. */
  lemma {:induction false} PreOrderForestVisitsTrees(es: seq<Entity>, i: nat)
    requires i < |es|
    ensures forall x :: x in PreOrder(es[i]) ==> x in PreOrderForest(es)
    decreases i
  {
    if i > 0 {
      PreOrderForestVisitsTrees(es[1..], i - 1);
    }
  }

  /**
   * The walk of an entity visits the whole subtree of each of its children,
   * whatever the entity itself is.
   */
  lemma SubtreeVisited(e: Entity, i: nat)
    requires i < |e.children|
    ensures forall x :: x in PreOrder(e.children[i]) ==> x in PreOrder(e)
  {
    PreOrderForestVisitsTrees(e.children, i);
  }
}
