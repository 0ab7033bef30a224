/**
 * The compliance check of one parsed file: a pre-order walk of its entities
 * that skips the file itself and every templated or friended entity (but
 * still descends into their children), evaluates the naming rule on each
 * named function and member function, records one verdict per evaluated
 * entity, and folds the verdicts into a file verdict that starts `true`.
 */
module Checker {
  import opened Wrappers
  import opened StdString
  import opened Entities
  import opened NamingRule

  /** The verdict on one entity: its name and whether that name is compliant (the `[OK]`/`[ERR]` trace line). */
  datatype Verdict = Verdict(name: string, compliant: bool)

  /** Entities the walk passes over without checking them. */
  predicate Skipped(e: Entity) {
    e.kind == File || e.templated || e.friended
  }

  /** Entities the naming rule is evaluated on. */
  predicate Eligible(e: Entity) {
    !Skipped(e) && (e.kind == Function || e.kind == MemberFunction) && |e.name| > 0
  }

  function Evaluate(e: Entity): Verdict
    requires Eligible(e)
  {
    Verdict(e.name, IsCompliant(e.name))
  }

  /** The eligible entities of `es`, in order. */
  function EligibleIn(es: seq<Entity>): (r: seq<Entity>)
    ensures forall i :: 0 <= i < |r| ==> Eligible(r[i])
  {
    if es == [] then []
    else (if Eligible(es[0]) then [es[0]] else []) + EligibleIn(es[1..])
  }

  /** The verdicts on the eligible entities of `es`, in the order of `es`. */
  function Verdicts(es: seq<Entity>): seq<Verdict> {
    if es == [] then []
    else (if Eligible(es[0]) then [Evaluate(es[0])] else []) + Verdicts(es[1..])
  }

  /** The verdicts the check of `root` reports, in the order the walk reaches their entities. */
  function Trace(root: Entity): seq<Verdict> {
    Verdicts(PreOrder(root))
  }

  /** `fileCompliant &= compliant` over `vs`, starting from `true`. */
  function AllCompliant(vs: seq<Verdict>): (b: bool)
    ensures b <==> forall i :: 0 <= i < |vs| ==> vs[i].compliant
  {
    if vs == [] then true else AllCompliant(vs[..|vs| - 1]) && vs[|vs| - 1].compliant
  }

  /** The file verdict of the check of `root`. */
  predicate FileCompliant(root: Entity) {
    AllCompliant(Trace(root))
  }

  /** The visitor callback on one entity: the verdict it prints, if any. */
  method CheckEntity(e: Entity) returns (verdict: Option<Verdict>)
    ensures verdict == if Eligible(e) then Some(Evaluate(e)) else None
  {
    verdict := None;
    if e.kind == File || e.templated || e.friended {
      return;
    }
    if e.kind == Function || e.kind == MemberFunction {
      if |e.name| > 0 {
        var name := e.name;
        var compliant := false;
        if name == "begin" || name == "end" || name == "cbegin" || name == "cend"
           || Substr(name, 0, 8) == "operator"
        {
          compliant := true;
        }
        if name[0] == ToUpper(name[0]) {
          compliant := true;
        }
        verdict := Some(Verdict(name, compliant));
      }
    }
  }

  /**
   * The check of a whole file: walks the tree with a stack of entities still
   * to visit, whose first tree is visited next, and returns the file verdict
   * and the verdicts in the order they are printed.
   */
  method Check(file: Entity) returns (fileCompliant: bool, verdicts: seq<Verdict>)
    ensures verdicts == Trace(file)
    ensures fileCompliant == FileCompliant(file)
    ensures fileCompliant <==> forall i :: 0 <= i < |verdicts| ==> verdicts[i].compliant
  {
    fileCompliant := true;
    verdicts := [];
    var pending := [file];
    assert pending[1..] == [];
    assert PreOrderForest(pending) == PreOrder(file);
    while pending != []
      invariant verdicts + Verdicts(PreOrderForest(pending)) == Trace(file)
      invariant fileCompliant == AllCompliant(verdicts)
      decreases |PreOrderForest(pending)|
    {
      var e := pending[0];
      var next := e.children + pending[1..];
      WalkStep(pending);
      var verdict := CheckEntity(e);
      pending := next;
      if verdict.Some? {
        assert (verdicts + [verdict.value])[..|verdicts|] == verdicts;
        verdicts := verdicts + [verdict.value];
        fileCompliant := fileCompliant && verdict.value.compliant;
      }
    }
  }

  /**
   * Each occurrence of an eligible entity in `es` is kept exactly once by
   * the filter, and every other entity is dropped.
   */
  lemma {:induction false} EligibleInCounts(es: seq<Entity>)
    ensures forall x :: multiset(EligibleIn(es))[x] == if Eligible(x) then multiset(es)[x] else 0
  {
    if es != [] {
      assert es == [es[0]] + es[1..];
      EligibleInCounts(es[1..]);
    }
  }

  /** There is one verdict per eligible entity, the verdict on that entity, in the same order. */
  lemma {:induction false} VerdictsOfEligible(es: seq<Entity>)
    ensures |Verdicts(es)| == |EligibleIn(es)|
    ensures forall i :: 0 <= i < |Verdicts(es)| ==> Verdicts(es)[i] == Evaluate(EligibleIn(es)[i])
  {
    if es != [] {
      VerdictsOfEligible(es[1..]);
      if Eligible(es[0]) {
        assert Verdicts(es) == [Evaluate(es[0])] + Verdicts(es[1..]);
        assert EligibleIn(es) == [es[0]] + EligibleIn(es[1..]);
      } else {
        assert Verdicts(es) == Verdicts(es[1..]);
        assert EligibleIn(es) == EligibleIn(es[1..]);
      }
    }
  }

  /** The verdicts on a concatenation are the verdicts on each part, in order. */
  lemma {:induction false} VerdictsAppend(a: seq<Entity>, b: seq<Entity>)
    ensures Verdicts(a + b) == Verdicts(a) + Verdicts(b)
    decreases |a|
  {
    if a == [] {
      assert a + b == b;
    } else {
      assert (a + b)[0] == a[0];
      assert (a + b)[1..] == a[1..] + b;
      VerdictsAppend(a[1..], b);
    }
  }

  /**
   * Visiting the first pending entity reports its own verdict, if any, and
   * leaves its children, then the other pending entities, still to visit.
   */
  lemma WalkStep(pending: seq<Entity>)
    requires pending != []
    ensures var e := pending[0];
            var next := e.children + pending[1..];
            && |PreOrderForest(next)| < |PreOrderForest(pending)|
            && Verdicts(PreOrderForest(pending))
               == (if Eligible(e) then [Evaluate(e)] else []) + Verdicts(PreOrderForest(next))
  {
    var e := pending[0];
    var next := e.children + pending[1..];
    PreOrderForestStep(pending);
    VerdictsAppend([e], PreOrderForest(next));
    VerdictsSingle(e);
  }

  lemma VerdictsSingle(e: Entity)
    ensures Verdicts([e]) == if Eligible(e) then [Evaluate(e)] else []
  {
    assert [e][1..] == [];
  }

  /**
   * An entity's own verdict, if it has one, comes before those of its
   * subtree; skipped and ineligible entities contribute nothing themselves.
   */
  lemma TraceUnfold(e: Entity)
    ensures Trace(e) == (if Eligible(e) then [Evaluate(e)] else []) + Verdicts(PreOrderForest(e.children))
  {
    VerdictsAppend([e], PreOrderForest(e.children));
    VerdictsSingle(e);
  }

  /**
   * A skipped entity (the file, a template, a friend) gets no verdict even if
   * its name would break the rule, and its children are checked all the same.
   */
  lemma SkippedEntityChildrenChecked(e: Entity)
    requires Skipped(e)
    ensures Trace(e) == Verdicts(PreOrderForest(e.children))
  {
    TraceUnfold(e);
  }

  /** Siblings are reported in declaration order, each with its whole subtree. */
  lemma SiblingsInOrder(cs: seq<Entity>)
    requires cs != []
    ensures Verdicts(PreOrderForest(cs)) == Trace(cs[0]) + Verdicts(PreOrderForest(cs[1..]))
  {
    VerdictsAppend(PreOrder(cs[0]), PreOrderForest(cs[1..]));
  }

  /** Every verdict is the verdict on an eligible entity the walk visits. */
  lemma VerdictsFromEligibleEntities(root: Entity)
    ensures forall i :: 0 <= i < |Trace(root)| ==>
              exists x :: x in PreOrder(root) && Eligible(x) && Trace(root)[i] == Evaluate(x)
  {
    var walk := PreOrder(root);
    var eligible := EligibleIn(walk);
    EligibleInCounts(walk);
    VerdictsOfEligible(walk);
    forall i | 0 <= i < |Trace(root)|
      ensures exists x :: x in walk && Eligible(x) && Trace(root)[i] == Evaluate(x)
    {
      var x := eligible[i];
      assert x in multiset(eligible);
      assert x in walk;
    }
  }

  /**
   * Exactly one verdict is reported for each time the walk visits an
   * eligible entity, and none for any other entity.
   */
  lemma OneVerdictPerEligibleEntity(root: Entity)
    ensures |Trace(root)| == |EligibleIn(PreOrder(root))|
    ensures forall x :: multiset(EligibleIn(PreOrder(root)))[x]
                        == if Eligible(x) then multiset(PreOrder(root))[x] else 0
  {
    EligibleInCounts(PreOrder(root));
    VerdictsOfEligible(PreOrder(root));
  }

  /** The file is compliant exactly when every eligible entity the walk visits has a compliant name. */
  lemma FileCompliantIff(root: Entity)
    ensures FileCompliant(root) <==>
              forall x :: x in PreOrder(root) && Eligible(x) ==> IsCompliant(x.name)
  {
    var walk := PreOrder(root);
    var eligible := EligibleIn(walk);
    var trace := Trace(root);
    EligibleInCounts(walk);
    VerdictsOfEligible(walk);
    if FileCompliant(root) {
      forall x | x in walk && Eligible(x)
        ensures IsCompliant(x.name)
      {
        assert multiset(eligible)[x] == multiset(walk)[x] > 0;
        var i :| 0 <= i < |eligible| && eligible[i] == x;
        assert trace[i].compliant;
      }
    } else {
      var i :| 0 <= i < |trace| && !trace[i].compliant;
      var x := eligible[i];
      assert x in multiset(eligible);
      assert x in walk && Eligible(x) && !IsCompliant(x.name);
    }
  }

  /** A file with no eligible entity reports nothing and is compliant. */
  lemma NothingEligibleIsCompliant(root: Entity)
    requires forall x :: x in PreOrder(root) ==> !Eligible(x)
    ensures Trace(root) == [] && FileCompliant(root)
  {
    var eligible := EligibleIn(PreOrder(root));
    EligibleInCounts(PreOrder(root));
    VerdictsOfEligible(PreOrder(root));
    assert multiset(eligible) == multiset{};
  }

  /** A templated function named `foo` in a file is passed over, and the file is compliant. */
  lemma TemplatedFunctionExample()
    ensures var foo := Entity(Function, "foo", true, false, []);
            var file := Entity(File, "a.cpp", false, false, [foo]);
            Trace(file) == [] && FileCompliant(file)
  {
    var foo := Entity(Function, "foo", true, false, []);
    var file := Entity(File, "a.cpp", false, false, [foo]);
    assert PreOrder(foo) == [foo];
    assert PreOrderForest([foo]) == [foo];
    assert PreOrder(file) == [file, foo];
    NothingEligibleIsCompliant(file);
  }

  /** A file holding only `Bar` and `baz` reports `[OK] Bar`, then `[ERR] baz`, and is not compliant. */
  lemma TwoFunctionsExample()
    ensures var bar := Entity(Function, "Bar", false, false, []);
            var baz := Entity(Function, "baz", false, false, []);
            var file := Entity(File, "a.cpp", false, false, [bar, baz]);
            Trace(file) == [Verdict("Bar", true), Verdict("baz", false)] && !FileCompliant(file)
  {
    var bar := Entity(Function, "Bar", false, false, []);
    var baz := Entity(Function, "baz", false, false, []);
    var file := Entity(File, "a.cpp", false, false, [bar, baz]);
    NamingExamples();
    assert !IsCompliant("baz") by {
      LowerCaseNotCompliant("baz");
    }
    assert PreOrder(bar) == [bar];
    assert PreOrder(baz) == [baz];
    assert [bar, baz][1..] == [baz];
    assert PreOrderForest([baz]) == [baz];
    assert PreOrderForest([bar, baz]) == [bar, baz];
    TraceUnfold(file);
    VerdictsAppend([bar], [baz]);
    VerdictsSingle(bar);
    VerdictsSingle(baz);
    assert Trace(file) == [Verdict("Bar", true), Verdict("baz", false)];
  }
}
